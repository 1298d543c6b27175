/** The arithmetic operations of the intermediate language compute the bit-string operations of the
    architecture. */
module OpMeaning {
  import opened Bits
  import opened Machine
  import ArmAsl

  lemma {:induction false} BitwiseMeaning(op: BitOp, x: Bits, y: Bits)
    requires |x| == |y|
    ensures NatBitwise(op, Val(x), Val(y)) == Val(Bitwise(op, x, y))
  {
    if x == [] {
    } else {
      BitwiseMeaning(op, x[1..], y[1..]);
      assert Bitwise(op, x, y)[1..] == Bitwise(op, x[1..], y[1..]);
      NatBitwiseStep(op, x[0], Val(x[1..]), y[0], Val(y[1..]));
    }
  }

  lemma NatBitwiseStep(op: BitOp, a: bool, m: nat, b: bool, n: nat)
    ensures NatBitwise(op, BitVal(a) + 2 * m, BitVal(b) + 2 * n) == BitVal(Apply(op, a, b)) + 2 * NatBitwise(op, m, n)
  {
    var p, q := BitVal(a) + 2 * m, BitVal(b) + 2 * n;
    assert p / 2 == m && q / 2 == n && (p % 2 == 1) == a && (q % 2 == 1) == b;
  }

  lemma NegMeaning(x: Bits)
    ensures EvalNeg(Val(x), |x|) == Val(Not(x))
  {
    ValBound(x);
    ValNot(x);
  }

  lemma {:induction false} TopBit(x: Bits)
    requires |x| > 0
    ensures Val(x) == Val(x[..|x| - 1]) + (if x[|x| - 1] then Pow2(|x| - 1) else 0)
    ensures Val(x[..|x| - 1]) < Pow2(|x| - 1)
  {
    if |x| == 1 {
    } else {
      TopBit(x[1..]);
      assert x[..|x| - 1][1..] == x[1..][..|x| - 2];
    }
  }

  lemma DoubleMeaning(x: Bits)
    requires |x| > 0
    ensures Double(Val(x), |x|) == Val([false] + x[..|x| - 1])
  {
    TopBit(x);
    assert ([false] + x[..|x| - 1])[1..] == x[..|x| - 1];
  }

  lemma {:induction false} LslMeaning(x: Bits, s: nat)
    requires s <= |x|
    ensures EvalLsl(Val(x), s, |x|) == Val(Zeros(s) + x[..|x| - s])
    decreases s
  {
    if s == 0 {
      assert Zeros(0) + x[..|x|] == x;
    } else {
      var y := [false] + x[..|x| - 1];
      DoubleMeaning(x);
      LslMeaning(y, s - 1);
      assert Zeros(s - 1) + y[..|x| - (s - 1)] == Zeros(s) + x[..|x| - s];
    }
  }

  lemma {:induction false} LsrMeaning(x: Bits, s: nat)
    requires s <= |x|
    ensures EvalLsr(Val(x), s) == Val(x[s..] + Zeros(s))
    decreases s
  {
    if s == 0 {
      assert x[0..] + Zeros(0) == x;
    } else {
      var y := x[1..] + Zeros(1);
      ValZeroExtend(x[1..], 1);
      LsrMeaning(y, s - 1);
      assert y[s - 1..] == x[s..] + Zeros(1);
      assert Zeros(1) + Zeros(s - 1) == Zeros(s);
      assert y[s - 1..] + Zeros(s - 1) == x[s..] + (Zeros(1) + Zeros(s - 1));
    }
  }

  lemma SignBit(x: Bits)
    requires |x| > 0
    ensures IsNegative(Val(x), |x|) <==> x[|x| - 1]
  {
    TopBit(x);
  }

  lemma AsrOfNegative(a: nat, b: nat, w: nat, c: nat, d: nat)
    requires IsNegative(a, w) && c == EvalNeg(a, w) && d == EvalLsr(c, b)
    ensures EvalAsr(a, b, w) == EvalNeg(d, w)
  {
  }

  lemma AsrNegative(x: Bits, s: nat, c: Bits, y: Bits)
    requires s < |x| == |c| == |y| && IsNegative(Val(x), |x|)
    requires EvalNeg(Val(x), |x|) == Val(c) && EvalLsr(Val(c), s) == Val(y)
    ensures EvalAsr(Val(x), s, |x|) == Val(Not(y))
  {
    AsrOfNegative(Val(x), s, |x|, Val(c), Val(y));
    NegMeaning(y);
  }

  lemma SignExtension(x: Bits, s: nat)
    requires s < |x|
    ensures x[|x| - 1] ==> Not(Not(x)[s..] + Zeros(s)) == x[s..] + seq(s, _ => x[|x| - 1])
    ensures !x[|x| - 1] ==> x[s..] + Zeros(s) == x[s..] + seq(s, _ => x[|x| - 1])
  {
  }

  lemma AsrMeaning(x: Bits, s: nat)
    requires s < |x|
    ensures EvalAsr(Val(x), s, |x|) == Val(x[s..] + seq(s, _ => x[|x| - 1]))
  {
    SignBit(x);
    SignExtension(x, s);
    if x[|x| - 1] {
      NegMeaning(x);
      LsrMeaning(Not(x), s);
      AsrNegative(x, s, Not(x), Not(x)[s..] + Zeros(s));
    } else {
      LsrMeaning(x, s);
    }
  }

  lemma RotateBelow(x: Bits, s: nat)
    requires s < |x|
    ensures ArmAsl.RotateRight(x, s) == x[s..] + x[..s]
  {
    DivModUnique(s, |x|, 0, s);
  }

  lemma OrParts(a: Bits, b: Bits)
    ensures Bitwise(Or, a + Zeros(|b|), Zeros(|a|) + b) == a + b
  {
  }

  lemma RorOfParts(a: nat, b: nat, w: nat, p: Bits, q: Bits)
    requires b <= w && |p| == |q|
    requires EvalLsr(a, b) == Val(p) && EvalLsl(a, w - b, w) == Val(q)
    ensures EvalRor(a, b, w) == Val(Bitwise(Or, p, q))
  {
    BitwiseMeaning(Or, p, q);
  }

  lemma RorMeaning(x: Bits, s: nat)
    requires s < |x|
    ensures EvalRor(Val(x), s, |x|) == Val(ArmAsl.RotateRight(x, s))
  {
    var p, q := x[s..] + Zeros(s), Zeros(|x| - s) + x[..s];
    LsrMeaning(x, s);
    LslMeaning(x, |x| - s);
    assert |x| - (|x| - s) == s;
    RorOfParts(Val(x), s, |x|, p, q);
    OrParts(x[s..], x[..s]);
    RotateBelow(x, s);
  }
}
