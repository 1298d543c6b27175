/** The sums and differences of the intermediate language are the architecture's, flags included. */
module SumMeaning {
  import opened Bits
  import opened Iml
  import opened Machine
  import opened ArmReference
  import opened OpMeaning
  import opened LogicalMeaning

  /** The operation the architecture means by bit 30 of an add or subtract. */
  function SumOp(op: bool): MathOp {
    if op then SUB else ADD
  }

  /** A sum below two periods, and a difference, are one of two numbers modulo the period. */
  lemma ModOnce(n: int, p: nat)
    requires 0 < p && 0 <= n + p && n < 2 * p
    ensures n % p == if n < 0 then n + p else if n < p then n else n - p
  {
    var q: int := if n < 0 then -1 else if n < p then 0 else 1;
    DivModUnique(n, p, q, n - p * q);
  }

  lemma CutOnce(u: nat, w: nat)
    requires u < 2 * Pow2(w)
    ensures Val(FromNat(u, w)) == if u < Pow2(w) then u else u - Pow2(w)
  {
    hide *;
    ValFromNat(u, w);
    ModOnce(u, Pow2(w));
  }

  lemma SumValue(a: Bits, b: Bits, c: bool)
    requires |a| == |b| > 0
    ensures var u, p := Val(a) + Val(b) + BitVal(c), Pow2(|a|);
            Val(AddWithCarry(a, b, c).result) == if u < p then u else u - p
  {
    hide Pow2, Val, FromNat, SInt, SumFlags;
    ValBound(a);
    ValBound(b);
    CutOnce(Val(a) + Val(b) + BitVal(c), |a|);
  }

  /** A w-bit number in two's complement. */
  function Signed(a: nat, w: nat): int {
    if IsNegative(a, w) then a - Pow2(w) else a
  }

  lemma SIntIs(x: Bits)
    requires |x| > 0
    ensures SInt(x) == Signed(Val(x), |x|) && Val(x) < Pow2(|x|)
  {
    SignBit(x);
    ValBound(x);
  }

  /** What the architecture's flags are of numbers a and b, their sum u, and what is left of it in w bits. */
  function FlagsOfSum(r: nat, u: nat, v: int, w: nat): Flags {
    ValueFlags(r, w).(c := r != u, v := Signed(r, w) != v)
  }

  lemma SumFlagsMean(r: Bits, u: nat, v: int)
    requires |r| > 0
    ensures SumFlags(r, u, v) == FlagsOfSum(Val(r), u, v, |r|)
  {
    hide Val, SInt, Signed, Zeros, Pow2;
    FlagMeaning(r);
    SIntIs(r);
  }

  lemma AddWithCarryMeans(a: Bits, b: Bits, c: bool)
    requires |a| == |b| > 0
    ensures var u, r := Val(a) + Val(b) + BitVal(c), Val(AddWithCarry(a, b, c).result);
            && r == (if u < Pow2(|a|) then u else u - Pow2(|a|))
            && AddWithCarry(a, b, c).flags
               == FlagsOfSum(r, u, Signed(Val(a), |a|) + Signed(Val(b), |a|) + BitVal(c), |a|)
  {
    hide Val, SInt, Signed, FromNat, SumFlags, FlagsOfSum, Pow2;
    SumValue(a, b, c);
    SIntIs(a);
    SIntIs(b);
    SumFlagsMean(AddWithCarry(a, b, c).result, Val(a) + Val(b) + BitVal(c), SInt(a) + SInt(b) + BitVal(c));
  }

  lemma AddNumbers(a: nat, b: nat, r: nat, w: nat)
    requires 0 < w && a < Pow2(w) && b < Pow2(w)
    requires r == if a + b < Pow2(w) then a + b else a + b - Pow2(w)
    ensures EvalOp(ADD, a, b, w) == r
    ensures OpFlags(ADD, a, b, w) == FlagsOfSum(r, a + b, Signed(a, w) + Signed(b, w), w)
  {
    assert Pow2(w) == 2 * Pow2(w - 1);
    hide Pow2;
    ModOnce(a + b, Pow2(w));
  }

  /** Subtracting is adding the complement y and 1. */
  lemma SubNumbers(a: nat, b: nat, y: nat, r: nat, w: nat)
    requires 0 < w && a < Pow2(w) && b < Pow2(w) && y == Pow2(w) - 1 - b
    requires r == if a + y + 1 < Pow2(w) then a + y + 1 else a + y + 1 - Pow2(w)
    ensures EvalOp(SUB, a, b, w) == r
    ensures OpFlags(SUB, a, b, w) == FlagsOfSum(r, a + y + 1, Signed(a, w) + Signed(y, w) + 1, w)
  {
    assert Pow2(w) == 2 * Pow2(w - 1);
    hide Pow2;
    ModOnce(a - b, Pow2(w));
  }

  lemma AddMeaning(a: Bits, b: Bits)
    requires |a| == |b| > 0
    ensures EvalOp(ADD, Val(a), Val(b), |a|) == Val(AddSub(false, a, b).result)
    ensures OpFlags(ADD, Val(a), Val(b), |a|) == AddSub(false, a, b).flags
  {
    hide Val, Pow2, AddWithCarry, OpFlags, FlagsOfSum, EvalOp, Signed;
    AddWithCarryMeans(a, b, false);
    ValBound(a);
    ValBound(b);
    AddNumbers(Val(a), Val(b), Val(AddWithCarry(a, b, false).result), |a|);
  }

  lemma SubMeaning(a: Bits, b: Bits)
    requires |a| == |b| > 0
    ensures EvalOp(SUB, Val(a), Val(b), |a|) == Val(AddSub(true, a, b).result)
    ensures OpFlags(SUB, Val(a), Val(b), |a|) == AddSub(true, a, b).flags
  {
    hide Val, Pow2, AddWithCarry, OpFlags, FlagsOfSum, EvalOp, Signed, Not;
    AddWithCarryMeans(a, Not(b), true);
    ValNot(b);
    ValBound(a);
    ValBound(b);
    SubNumbers(Val(a), Val(b), Val(Not(b)), Val(AddWithCarry(a, Not(b), true).result), |a|);
  }

  /** The operations on numbers are the architecture's sum and difference, flags included. */
  lemma AddSubMeans(op: bool, a: Bits, b: Bits)
    requires |a| == |b| > 0
    ensures EvalOp(SumOp(op), Val(a), Val(b), |a|) == Val(AddSub(op, a, b).result)
    ensures OpFlags(SumOp(op), Val(a), Val(b), |a|) == AddSub(op, a, b).flags
  {
    if op {
      SubMeaning(a, b);
    } else {
      AddMeaning(a, b);
    }
  }

  // ---- adding instead of subtracting ----

  /** a + b or, with op set, a - b, in numbers below p. */
  function SumBelow(op: bool, a: nat, b: nat, p: nat): int {
    if op then (if a >= b then a - b else a - b + p) else if a + b < p then a + b else a + b - p
  }

  lemma AddSubValue(op: bool, a: Bits, b: Bits)
    requires |a| == |b| > 0
    ensures Val(a) < Pow2(|a|) && Val(b) < Pow2(|a|)
    ensures Val(AddSub(op, a, b).result) == SumBelow(op, Val(a), Val(b), Pow2(|a|))
  {
    hide Pow2, Val, AddWithCarry, Not;
    ValBound(a);
    ValBound(b);
    if op {
      ValNot(b);
      SumValue(a, Not(b), true);
    } else {
      SumValue(a, b, false);
    }
  }

  /** a + b and a - b agree exactly when b is its own negative. */
  lemma OppositeResultIff(op: bool, a: Bits, b: Bits)
    requires |a| == |b| > 0
    ensures AddSub(!op, a, b).result == AddSub(op, a, b).result <==> Val(b) == 0 || 2 * Val(b) == Pow2(|b|)
  {
    hide Pow2, Val, AddSub;
    AddSubValue(true, a, b);
    AddSubValue(false, a, b);
    if Val(AddSub(true, a, b).result) == Val(AddSub(false, a, b).result) {
      ValInjective(AddSub(true, a, b).result, AddSub(false, a, b).result);
    }
  }

  /** Different first operands give different results. */
  lemma SumsDiffer(op: bool, a: Bits, a': Bits, b: Bits)
    requires |a| == |a'| == |b| > 0 && Val(a) != Val(a')
    ensures AddSub(op, a, b).result != AddSub(op, a', b).result
  {
    hide Pow2, Val, AddSub;
    AddSubValue(op, a, b);
    AddSubValue(op, a', b);
  }

  /** Only 0 can be added or subtracted without a change. */
  lemma SumUnchangedIff(op: bool, a: Bits, b: Bits)
    requires |a| == |b| > 0
    ensures AddSub(op, a, b).result == a <==> Val(b) == 0
  {
    hide Pow2, Val, AddSub;
    AddSubValue(op, a, b);
    if Val(b) == 0 {
      ValInjective(AddSub(op, a, b).result, a);
    }
  }

  /** A sum and a difference of the same operands never leave the same flags. */
  lemma OppositeFlagsNumbers(a: nat, b: nat, w: nat)
    requires 0 < w && a < Pow2(w) && b < Pow2(w)
    ensures OpFlags(ADD, a, b, w) != OpFlags(SUB, a, b, w)
  {
    ModOnce(a + b, Pow2(w));
    ModOnce(a - b, Pow2(w));
  }

  lemma OppositeFlagsDiffer(op: bool, a: Bits, b: Bits)
    requires |a| == |b| > 0
    ensures AddSub(!op, a, b).flags != AddSub(op, a, b).flags
  {
    hide Pow2, Val, AddSub, OpFlags;
    AddSubMeans(true, a, b);
    AddSubMeans(false, a, b);
    ValBound(a);
    ValBound(b);
    OppositeFlagsNumbers(Val(a), Val(b), |a|);
  }

  /** What a record whose expression adds or subtracts does, in the architecture's terms. */
  lemma SumExec(i: Instruction, op: bool, ta: Tree, tb: Tree, s: State, a: Bits, b: Bits)
    requires StateOk(s) && i.body.Math? && i.body.dest < 32 && |a| == |b| == Width(i.is64)
    requires EvalTree(ta, s, |a|) == Val(a) && EvalTree(tb, s, |a|) == Val(b)
    ensures var sum := AddSub(op, a, b);
            ExecMath(i, Node(SumOp(op), ta, tb), s)
            == WriteX(if i.body.setFlags then s.(flags := sum.flags) else s, i.body.dest, sum.result)
  {
    hide EvalOp, OpFlags, AddSub, Val, FromNat;
    AddSubMeans(op, a, b);
    WriteMeaning(AddSub(op, a, b).result, 64);
  }
}
