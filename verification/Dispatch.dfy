/** Every group that the four dispatch functions name, by the bits of the word: the encoding tables of
    sections C4.1, C4.2, C4.3 and C4.5 of DDI 0487 issue A.k. */
module Dispatch {
  import opened ArmEncoding

  lemma TopLevel(w: bv32)
    ensures InstrGetGroup(w) == L1_DATA_IMM <==> w & 0x1C000000 == 0x10000000
    ensures InstrGetGroup(w) == L1_BRANCH <==> w & 0x1C000000 == 0x14000000
    ensures InstrGetGroup(w) == L1_LD_STR <==> w & 0x0A000000 == 0x08000000
    ensures InstrGetGroup(w) == L1_DATA_REG <==> w & 0x0E000000 == 0x0A000000
    ensures InstrGetGroup(w) == L1_DATA_SIMD <==> w & 0x0E000000 == 0x0E000000
    ensures InstrGetGroup(w) == L1_UNALLOCATED <==> w & 0x18000000 == 0
  {
    SixEntries(TOP_TABLE, GetBitRegion(w, 25, 29), L1_UNALLOCATED);
  }

  /** No word is unallocated here. */
  lemma Immediates(w: bv32)
    ensures DataImmGetGroup(w) == IMM_PC_REL_ADDR <==> w & 0x03000000 == 0
    ensures DataImmGetGroup(w) == IMM_ADDSUB_IMM <==> w & 0x03000000 == 0x01000000
    ensures DataImmGetGroup(w) == IMM_LOGICAL_IMM <==> w & 0x03800000 == 0x02000000
    ensures DataImmGetGroup(w) == IMM_MOV_WIDE <==> w & 0x03800000 == 0x02800000
    ensures DataImmGetGroup(w) == IMM_BITFIELD <==> w & 0x03800000 == 0x03000000
    ensures DataImmGetGroup(w) == IMM_EXTRACT <==> w & 0x03800000 == 0x03800000
  {
    SixEntries(DATA_IMM_TABLE, GetBitRegion(w, 23, 25), IMM_UNALLOCATED);
  }

  lemma Branches(w: bv32)
    ensures BranchGetGroup(w) == BRANCH_CONDITIONAL <==> w & 0xE2000000 == 0x40000000
    ensures BranchGetGroup(w) == BRANCH_EXCEPTION <==> w & 0xE3000000 == 0xC0000000
    ensures BranchGetGroup(w) == BRANCH_SYSTEM <==> w & 0xE3C00000 == 0xC1000000
    ensures BranchGetGroup(w) == BRANCH_UNCONDITIONAL_REG <==> w & 0xE2000000 == 0xC2000000
    ensures BranchGetGroup(w) == BRANCH_UNCONDITIONAL_IMM <==> w & 0x60000000 == 0
    ensures BranchGetGroup(w) == BRANCH_COMPARE <==> w & 0x62000000 == 0x20000000
    ensures BranchGetGroup(w) == BRANCH_TEST <==> w & 0x62000000 == 0x22000000
  {
    SevenEntries(BRANCH_TABLE, GetBitRegion(w, 29, 31), GetBitRegion(w, 22, 25), BRANCH_UNALLOCATED);
  }

  lemma SingleBits(w: bv32)
    ensures GetSingleBit(w, 30) == 0 <==> w & 0x40000000 == 0
    ensures GetSingleBit(w, 28) == 0 <==> w & 0x10000000 == 0
    ensures GetSingleBit(w, 11) == 0 <==> w & 0x800 == 0
  {
  }

  lemma Op2Is(w: bv32)
    ensures GetBitRegion(w, 21, 24) == (w >> 21) & 15
  {
  }

  lemma Op2Bit3(op2: bv32)
    ensures GetSingleBit(op2, 3) == 0 <==> op2 & 8 == 0
  {
  }

  /** The groups by op0 to op3. */
  lemma ByFields(w: bv32, op2: bv32)
    requires op2 == (w >> 21) & 15
    ensures w & 0x10000000 == 0 ==>
              DataRegGetGroup(w) == if op2 & 8 == 0 then REG_LOGICAL_SHIFT
                                    else if op2 & 1 == 0 then REG_ADDSUB_SHIFT else REG_ADDSUB_EXTEND
    ensures w & 0x10000000 != 0 ==>
              DataRegGetGroup(w) ==
              if op2 == 0 then REG_ADDSUB_CARRY
              else if op2 == 2 then if w & 0x800 != 0 then REG_COND_COMP_IMM else REG_COND_COMP_REG
              else if op2 == 4 then REG_COND_SEL
              else if op2 == 6 then if w & 0x40000000 == 0 then REG_2_SOURCES else REG_1_SOURCE
              else if op2 & 8 == 8 then REG_3_SOURCES
              else REG_UNALLOCATED
  {
    hide GetBitRegion, GetSingleBit;
    SingleBits(w);
    Op2Is(w);
    Op2Bit3(op2);
  }

  lemma Registers(w: bv32)
    ensures DataRegGetGroup(w) == REG_LOGICAL_SHIFT <==> w & 0x11000000 == 0
    ensures DataRegGetGroup(w) == REG_ADDSUB_SHIFT <==> w & 0x11200000 == 0x01000000
    ensures DataRegGetGroup(w) == REG_ADDSUB_EXTEND <==> w & 0x11200000 == 0x01200000
    ensures DataRegGetGroup(w) == REG_ADDSUB_CARRY <==> w & 0x11E00000 == 0x10000000
    ensures DataRegGetGroup(w) == REG_COND_COMP_REG <==> w & 0x11E00800 == 0x10400000
    ensures DataRegGetGroup(w) == REG_COND_COMP_IMM <==> w & 0x11E00800 == 0x10400800
    ensures DataRegGetGroup(w) == REG_COND_SEL <==> w & 0x11E00000 == 0x10800000
    ensures DataRegGetGroup(w) == REG_2_SOURCES <==> w & 0x51E00000 == 0x10C00000
    ensures DataRegGetGroup(w) == REG_1_SOURCE <==> w & 0x51E00000 == 0x50C00000
    ensures DataRegGetGroup(w) == REG_3_SOURCES <==> w & 0x11000000 == 0x11000000
  {
    hide DataRegGetGroup;
    ByFields(w, (w >> 21) & 15);
  }
}
