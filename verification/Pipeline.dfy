/** From code buffer to meaning: running the generated list from its first record does what the Arm
    program does. */
module Pipeline {
  import opened Pools
  import opened Iml
  import opened Layout
  import opened Machine
  import opened TreePool
  import opened Decode
  import opened ProgramLayout
  import opened ImlGen
  import opened ArmReference
  import opened ArmEncoding
  import opened LogicalMeaning
  import opened LogicalImmMeaning
  import opened AddSubMeaning

  // ---- running the intermediate code ----

  /** Executes the instruction record at a handle, evaluating its expression in the pool. */
  function ExecRecord(mem: seq<byte>, h: nat, s: State): (r: State)
    requires StateOk(s) && h + SIZEOF_INSTRUCTION <= |mem|
    ensures StateOk(r)
  {
    var i := InstructionAt(mem, h);
    if !i.body.Math? then s
    else
      var o := RunExpression(mem, h, i.body.expr, s, Width(i.is64));
      if o.Failed? then s else ExecValue(i, o.value, o.flags, s)
  }

  /** Executes the list from a handle on, until `next` is 0. A `next` that does not lie ahead would
      end the run too; a generated list has none. */
  function RunList(mem: seq<byte>, h: nat, s: State): State
    requires StateOk(s)
    decreases |mem| - h
  {
    if h + SIZEOF_INSTRUCTION > |mem| then s
    else
      var s' := ExecRecord(mem, h, s);
      var next := InstructionAt(mem, h).next;
      if next <= h then s' else RunList(mem, next, s')
  }

  // ---- running the Arm code ----

  /** The accepted words of the four classes with a reference meaning, less those the architecture
      reserves. */
  predicate HasMeaning(w: bv32) {
    && Accepts(w)
    && match Classify(w)
       case LOGICAL_SHIFT => Legal(AsLogicalShifted(w))
       case LOGICAL_IMM => Legal(AsLogicalImm(w))
       case ADDSUB_IMM => Legal(AsAddSubImm(w))
       case ADDSUB_SHIFT => Legal(AsAddSubShifted(w))
       case _ => false
  }

  /** The words that pass every assertion of the decoders: all but 0 and, of the classes with assertions,
      those that the architecture does not allocate; of add and subtract (shifted register) only the
      amount is checked. */
  lemma AcceptsIff(w: bv32)
    ensures Accepts(w)
            <==> && w != 0
                 && (w & 0x1F800000 == 0x12000000 ==> Legal(AsLogicalImm(w)))
                 && (w & 0x1F000000 == 0x0A000000 ==> Legal(AsLogicalShifted(w)))
                 && (w & 0x1F200000 == 0x0B000000 ==> w >> 31 == 1 || (w >> 15) & 1 == 0)
  {
    hide Accepts, Legal, Encode, AsLogicalImm, AsLogicalShifted, InstrGetGroup, DataImmGetGroup, DataRegGetGroup,
         BranchGetGroup;
    ImmediateClasses(w);
    RegisterClasses(w);
    if w & 0x1F800000 == 0x12000000 {
      ImmEncodesBack(w);
      ImmAcceptedIff(AsLogicalImm(w));
    } else if w & 0x1F000000 == 0x0A000000 {
      EncodesBack(w);
      IsShifted(w);
      ShiftedAcceptedIff(AsLogicalShifted(w));
    } else {
      OtherAccepted(w);
    }
  }

  lemma IsShifted(w: bv32)
    ensures AsLogicalShifted(w).LogicalShifted?
  {
  }

  lemma OtherAccepted(w: bv32)
    requires Classify(w) != LOGICAL_IMM && Classify(w) != LOGICAL_SHIFT
    ensures Accepts(w) <==> w != 0 && (Classify(w) == ADDSUB_SHIFT ==> w >> 31 == 1 || (w >> 15) & 1 == 0)
  {
    hide Classify;
    AmountBit5(w);
  }

  lemma AmountBit5(w: bv32)
    ensures Flag(w, 31) <==> w >> 31 == 1
    ensures GetSingleBit(GetBitRegion(w, 10, 15), 5) == 0 <==> (w >> 15) & 1 == 0
  {
  }

  /** What the architecture does with a word. */
  function ArmStep(w: bv32, s: State): State
    requires HasMeaning(w) && StateOk(s)
  {
    if Classify(w) == LOGICAL_SHIFT then ExecLogicalShifted(AsLogicalShifted(w), s)
    else if Classify(w) == LOGICAL_IMM then ExecLogicalImm(AsLogicalImm(w), s)
    else if Classify(w) == ADDSUB_IMM then ExecAddSubImm(AsAddSubImm(w), s)
    else ExecAddSubShifted(AsAddSubShifted(w), s)
  }

  /** The words whose decoding preserves meaning: logical (shifted register), and the faithful forms of
      logical (immediate) and of add and subtract. */
  predicate MeaningKept(w: bv32) {
    && HasMeaning(w)
    && match Classify(w)
       case LOGICAL_IMM => Faithful(AsLogicalImm(w))
       case ADDSUB_IMM => ImmFaithful(AsAddSubImm(w))
       case ADDSUB_SHIFT => RegFaithful(AsAddSubShifted(w))
       case _ => true
  }

  lemma HasRecord(w: bv32)
    requires HasMeaning(w)
    ensures Describe(w).WithTree? && Describe(w).frame.body.Math?
  {
  }

  /** These are all such words: the record of a word does what the architecture does in every state
      exactly when it is one of them. */
  lemma MeaningKeptIff(w: bv32)
    requires HasMeaning(w)
    ensures Describe(w).WithTree? && Describe(w).frame.body.Math?
    ensures MeaningKept(w)
            <==> forall s :: StateOk(s) ==> ExecMath(Describe(w).frame, Describe(w).tree, s) == ArmStep(w, s)
  {
    hide Describe, Legal, Accepts, ExecMath, Faithful, ImmFaithful, RegFaithful, Encode,
         ExecLogicalShifted, ExecLogicalImm, ExecAddSubImm, ExecAddSubShifted,
         AsLogicalShifted, AsLogicalImm, AsAddSubImm, AsAddSubShifted;
    HasRecord(w);
    match Classify(w)
    case LOGICAL_SHIFT =>
      forall s | StateOk(s)
        ensures ExecMath(Describe(w).frame, Describe(w).tree, s) == ArmStep(w, s)
      {
        LogicalShiftedWordFaithful(w, s);
      }
    case LOGICAL_IMM =>
      ImmediateClasses(w);
      ImmEncodesBack(w);
      LogicalImmFaithfulIff(AsLogicalImm(w));
    case ADDSUB_IMM =>
      ImmediateClasses(w);
      AddImmEncodesBack(w);
      AddSubImmFaithfulIff(AsAddSubImm(w));
    case ADDSUB_SHIFT =>
      RegisterClasses(w);
      AddRegEncodesBack(w);
      AddSubShiftedFaithfulIff(AsAddSubShifted(w));
  }

  lemma ArmStepIs(w: bv32, s: State)
    requires MeaningKept(w) && StateOk(s)
    ensures Describe(w).WithTree? && Describe(w).frame.body.Math?
    ensures ArmStep(w, s) == ExecMath(Describe(w).frame, Describe(w).tree, s)
  {
    hide Describe, HasMeaning, MeaningKept, ExecMath, ArmStep;
    KeptHasMeaning(w);
    MeaningKeptIff(w);
  }

  lemma KeptHasMeaning(w: bv32)
    ensures MeaningKept(w) ==> HasMeaning(w)
  {
  }

  function RunArm(words: seq<bv32>, k: nat, s: State): State
    requires k <= |words| && StateOk(s)
    requires forall j :: 0 <= j < |words| ==> MeaningKept(words[j])
    decreases |words| - k
  {
    if k == |words| then s
    else
      ArmStepIs(words[k], s);
      RunArm(words, k + 1, ArmStep(words[k], s))
  }

  // ---- they agree ----

  /** Executing a record depends on the frame of its instruction and the value and flags of its tree only. */
  lemma FrameExec(frame: Instruction, e: Expression, next: nat, value: nat, flags: Flags, s: State)
    requires StateOk(s) && frame.body.Math?
    ensures ExecValue(SetExpression(frame, e).(next := next), value, flags, s) == ExecValue(frame, value, flags, s)
  {
  }

  lemma RecordExec(items: seq<Item>, k: nat, s: State)
    requires ItemsOk(items) && k < |items| && items[k].WithTree? && StateOk(s)
    ensures InstrHandle(items, k) + SIZEOF_INSTRUCTION <= |Final(items)|
    ensures ExecRecord(Final(items), InstrHandle(items, k), s) == ExecMath(items[k].frame, items[k].tree, s)
  {
    hide Final, InstructionAt, InstrHandle, RunExpression, EvalTree, TreeFlags, ExecValue, Base;
    var e, w := EmissionOf(items, k).instr.body.expr, Width(items[k].frame.is64);
    InstructionStays(items, k);
    EvaluationStable(items, k, s, w);
    FrameExec(items[k].frame, e, NextOf(items, k), EvalTree(items[k].tree, s, w), TreeFlags(items[k].tree, s, w), s);
  }

  /** One step of the run: the record of word k does what its tree means, and the run goes on at the
      record of word k + 1, or ends after the last word. */
  lemma RunStep(items: seq<Item>, k: nat, s: State)
    requires ItemsOk(items) && k < |items| && items[k].WithTree? && items[k].frame.body.Math? && StateOk(s)
    ensures var s' := ExecMath(items[k].frame, items[k].tree, s);
            RunList(Final(items), InstrHandle(items, k), s)
            == if k + 1 < |items| then RunList(Final(items), InstrHandle(items, k + 1), s') else s'
  {
    hide Final, InstructionAt, ExecRecord, EmissionOf, InstrHandle, ExecMath, Base;
    RecordExec(items, k, s);
    InstructionStays(items, k);
    if k + 1 < |items| {
      HandlesIncrease(items, k, k + 1);
    }
  }

  lemma {:induction false} RunFrom(words: seq<bv32>, k: nat, s: State)
    requires CodeOk(words) && k < |words| && StateOk(s)
    requires forall j :: 0 <= j < |words| ==> MeaningKept(words[j])
    ensures RunList(Final(Items(words)), InstrHandle(Items(words), k), s) == RunArm(words, k, s)
    decreases |words| - k
  {
    hide Final, InstrHandle, MeaningKept, RunList, ArmStep, Describe, ExecMath;
    KeptHasMeaning(words[k]);
    ArmStepIs(words[k], s);
    RunStep(Items(words), k, s);
    if k + 1 == |words| {
    } else {
      RunFrom(words, k + 1, ArmStep(words[k], s));
    }
  }

  /** The pipeline: for every buffer of accepted words whose decoding is faithful, however long, running
      the list in the final pool from the handle `imlgen_recurse` returns does to every state what the
      Arm program does, instruction by instruction in program order. */
  lemma PipelinePreservesMeaning(words: seq<bv32>, s: State)
    requires CodeOk(words) && 0 < |words| && StateOk(s)
    requires forall j :: 0 <= j < |words| ==> MeaningKept(words[j])
    ensures RunList(Final(Items(words)), InstrHandle(Items(words), 0), s) == RunArm(words, 0, s)
  {
    RunFrom(words, 0, s);
  }

  /** The same of what `imlgen` leaves behind: the pool it filled, run from the handle it got. */
  method ImlgenPreservesMeaning(words: seq<bv32>) returns (p: Program, entry: nat)
    requires CodeOk(words) && |words| > 0
    requires forall j :: 0 <= j < |words| ==> MeaningKept(words[j])
    ensures p.Valid() && p.code == words
    ensures forall s :: StateOk(s) ==> RunList(p.imlPool.Contents(), entry, s) == RunArm(words, 0, s)
  {
    hide CodeOk, MeaningKept, Items, Final, InstrHandle, RunList, RunArm;
    p, entry := Imlgen(words);
    forall s | StateOk(s)
      ensures RunList(p.imlPool.Contents(), entry, s) == RunArm(words, 0, s)
    {
      PipelinePreservesMeaning(words, s);
    }
  }
}
