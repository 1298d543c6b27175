/** What running the record of a word that was not decoded does. Such a record holds a blank expression,
    whose children are handle 0. */
module Undecoded {
  import opened Bits
  import opened Pools
  import opened Iml
  import opened Layout
  import opened Machine
  import opened TreePool
  import opened Decode
  import opened ProgramLayout
  import opened ImlGen
  import opened LogicalImmMeaning
  import opened Pipeline

  // ---- the first bytes of the pool, read as an expression ----

  /** The first record pushed for a tree is a leaf. */
  lemma {:induction false} FirstNode(t: Tree, base: nat)
    requires Count(t) > 0
    ensures |Build(t, [], base).nodes| > 0 && Build(t, [], base).nodes[0].Value?
  {
    match t
    case Neg(a) =>
      if Count(a) > 0 {
        FirstNode(a, base);
      }
    case Node(_, l, r) =>
      if Count(l) > 0 {
        FirstNode(l, base);
        BuildExtends(r, Build(l, [], base).nodes, base);
      } else if Count(r) > 0 {
        FirstNode(r, base);
      }
  }

  lemma {:induction false} FromLEZeros(n: nat)
    ensures FromLE(ZeroBytes(n)) == 0
  {
    if n == 0 {
    } else {
      FromLEZeros(n - 1);
      assert ZeroBytes(n)[1..] == ZeroBytes(n - 1);
    }
  }

  /** An undecoded word's record reads as an addition of two children at handle 0. */
  lemma EmptyHead(next: nat)
    requires next < Pow256(4)
    ensures ParseExpression(SerInstruction(EMPTY.(next := next))[..SIZEOF_EXPRESSION]) == BLANK
  {
    var b := SerInstruction(EMPTY.(next := next))[..SIZEOF_EXPRESSION];
    forall i | 0 <= i < SIZEOF_EXPRESSION
      ensures b[i] == 0
    {
      assert SerExpression(BLANK)[..8] == [0] + ZeroBytes(7);
    }
    FromLEZeros(4);
    assert b[12..16] == ZeroBytes(4) && b[16..20] == ZeroBytes(4);
  }

  /** A branch's record reads as a constant. */
  lemma BranchHead(i: Instruction)
    requires InstructionOk(i) && i.body.Branch?
    ensures ParseExpression(SerInstruction(i)[..SIZEOF_EXPRESSION]).Value?
  {
  }

  /** What the first bytes of the final pool read as. */
  lemma FirstBytes(items: seq<Item>)
    requires ItemsOk(items) && 0 < |items|
    requires items[0].Plain? ==> items[0].instr == EMPTY || items[0].instr.body.Branch?
    ensures SIZEOF_EXPRESSION <= |Final(items)|
    ensures items[0] == Plain(EMPTY) ==> ExpressionAt(Final(items), 0) == BLANK
    ensures items[0] != Plain(EMPTY) && (items[0].WithTree? ==> ItemCount(items[0]) > 0)
            ==> ExpressionAt(Final(items), 0).Value?
  {
    hide Final, SerInstruction, ParseExpression, InstructionAt;
    var mem, e := Final(items), EmissionOf(items, 0);
    RecordsStay(items, 0);
    if items[0].WithTree? {
      if ItemCount(items[0]) > 0 {
        NodesStay(items, 0);
        FirstNode(items[0].tree, 0);
        NodeIn(mem, 0, e.nodes, 0);
      }
    } else {
      PlainBytes(items);
      if items[0].instr == EMPTY {
        EmptyHead(NextOf(items, 0));
      } else {
        BranchHead(items[0].instr.(next := NextOf(items, 0)));
      }
    }
  }

  /** A first word without a tree starts the pool with its instruction. */
  lemma PlainBytes(items: seq<Item>)
    requires ItemsOk(items) && 0 < |items| && items[0].Plain?
    ensures SIZEOF_EXPRESSION <= |Final(items)|
    ensures InstructionOk(items[0].instr.(next := NextOf(items, 0))) && NextOf(items, 0) < Pow256(4)
    ensures Final(items)[0..SIZEOF_EXPRESSION]
            == SerInstruction(items[0].instr.(next := NextOf(items, 0)))[..SIZEOF_EXPRESSION]
  {
    hide Final, SerInstruction;
    assert Pow256(4) == U32;
    RecordsStay(items, 0);
    var r := SerInstruction(items[0].instr.(next := NextOf(items, 0)));
    assert WordRecords(items, 0, NextOf(items, 0)) == [] + r == r;
    assert Final(items)[0..SIZEOF_EXPRESSION] == Final(items)[0..SIZEOF_INSTRUCTION][..SIZEOF_EXPRESSION];
  }

  // ---- running a blank expression ----

  /** It fails below the first record and where handle 0 reads as another blank; where handle 0 reads as
      a leaf it adds that leaf to itself. */
  lemma BlankRuns(mem: seq<byte>, h: nat, s: State, w: nat)
    requires StateOk(s) && SIZEOF_EXPRESSION <= |mem|
    ensures h < SIZEOF_EXPRESSION || ExpressionAt(mem, 0) == BLANK ==> RunExpression(mem, h, BLANK, s, w).Failed?
    ensures SIZEOF_EXPRESSION <= h && ExpressionAt(mem, 0).Value? ==>
              var v := EvalOperand(ExpressionAt(mem, 0).operand, s, w);
              RunExpression(mem, h, BLANK, s, w) == Outcome(Wrap(v + v, w), OpFlags(ADD, v, v, w))
  {
    hide ExpressionAt, EvalOperand, OpFlags, Pow2;
    var e := ExpressionAt(mem, 0);
    if e.Value? {
      assert EvalAt(mem, 0, e, s, w) == Some(EvalOperand(e.operand, s, w));
    }
  }

  /** Handle 0 reads as a leaf: the record of an undecoded word puts twice the leaf's value in X0. */
  lemma UndecodedWrites(items: seq<Item>, k: nat, s: State)
    requires ItemsOk(items) && k < |items| && items[k] == Plain(EMPTY) && items[0] != Plain(EMPTY) && StateOk(s)
    requires items[0].Plain? ==> items[0].instr.body.Branch?
    requires items[0].WithTree? ==> ItemCount(items[0]) > 0
    ensures InstrHandle(items, k) + SIZEOF_INSTRUCTION <= |Final(items)|
    ensures SIZEOF_EXPRESSION <= |Final(items)| && ExpressionAt(Final(items), 0).Value?
    ensures var v := EvalOperand(ExpressionAt(Final(items), 0).operand, s, 32);
            ExecRecord(Final(items), InstrHandle(items, k), s) == WriteDest(s, 0, Wrap(v + v, 32))
  {
    hide Final, InstructionAt, ExpressionAt, RunExpression, EvalOperand, WriteDest, Wrap, OpFlags;
    InstructionStays(items, k);
    FirstBytes(items);
    BaseMonotone(items, 0, k);
    BlankRuns(Final(items), InstrHandle(items, k), s, 32);
  }

  /** A 32-bit value in X0 leaves a state in which X0 held more changed. */
  lemma WriteShows(value: nat)
    requires value < Pow2(32)
    ensures WriteDest(Uniform(Ones(64), Zeros(64)), 0, value) != Uniform(Ones(64), Zeros(64))
  {
    hide FromNat, Val, Pow2;
    Pow2Words();
    FromNatSmall(value, 64);
    ValOnes(64);
    var s := Uniform(Ones(64), Zeros(64));
    assert WriteDest(s, 0, value).x[0] == FromNat(value, 64);
    assert s.x[0] == Ones(64);
  }

  /** The record of an undecoded word in the final pool leaves every state unchanged exactly when the
      first word was not decoded either. */
  lemma UndecodedRecord(items: seq<Item>, k: nat)
    requires ItemsOk(items) && k < |items| && items[k] == Plain(EMPTY)
    requires items[0].Plain? ==> items[0].instr == EMPTY || items[0].instr.body.Branch?
    requires items[0].WithTree? ==> ItemCount(items[0]) > 0
    ensures InstrHandle(items, k) + SIZEOF_INSTRUCTION <= |Final(items)|
    ensures (forall s :: StateOk(s) ==> ExecRecord(Final(items), InstrHandle(items, k), s) == s)
            <==> items[0] == Plain(EMPTY)
  {
    hide Final, InstructionAt, ExpressionAt, RunExpression, ExecValue;
    var mem, h := Final(items), InstrHandle(items, k);
    InstructionStays(items, k);
    assert InstructionAt(mem, h) == EMPTY.(next := NextOf(items, k));
    FirstBytes(items);
    if items[0] == Plain(EMPTY) {
      forall s | StateOk(s)
        ensures ExecRecord(mem, h, s) == s
      {
        BlankRuns(mem, h, s, 32);
      }
    } else {
      var s := Uniform(Ones(64), Zeros(64));
      var v := EvalOperand(ExpressionAt(mem, 0).operand, s, 32);
      UndecodedWrites(items, k, s);
      WriteShows(Wrap(v + v, 32));
    }
  }

  lemma ClassOf(w: bv32)
    requires Accepts(w)
    ensures Describe(w) == Plain(EMPTY) <==> Classify(w) == UNIMPLEMENTED
    ensures Describe(w).Plain? ==> Describe(w).instr == EMPTY || Describe(w).instr.body.Branch?
    ensures Describe(w).WithTree? ==> ItemCount(Describe(w)) > 0
  {
  }

  /** For code: in the final pool of a buffer, running the record of a word that no decoder handles
      leaves every state unchanged exactly when no decoder handles the first word of the buffer
      either. Otherwise it writes X0 (`UndecodedWrites`). */
  lemma UndecodedHarmlessIff(words: seq<bv32>, k: nat)
    requires CodeOk(words) && k < |words| && Classify(words[k]) == UNIMPLEMENTED
    ensures InstrHandle(Items(words), k) + SIZEOF_INSTRUCTION <= |Final(Items(words))|
    ensures (forall s :: StateOk(s) ==> ExecRecord(Final(Items(words)), InstrHandle(Items(words), k), s) == s)
            <==> Classify(words[0]) == UNIMPLEMENTED
  {
    hide Final, InstrHandle, Describe, Accepts, Classify, ExecRecord;
    ClassOf(words[k]);
    ClassOf(words[0]);
    UndecodedRecord(Items(words), k);
  }
}
