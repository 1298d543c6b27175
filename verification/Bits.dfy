/** Bit strings, least significant bit first, and the numbers they stand for.
    A C unsigned integer of width w is a bit string of length w; the same type
    serves as the `bits(N)` of the Arm pseudocode. */
module Bits {

  type Bits = seq<bool>

  function Pow2(n: nat): (r: nat)
    ensures 0 < r
  {
    if n == 0 then 1 else 2 * Pow2(n - 1)
  }

  function BitVal(b: bool): nat {
    if b then 1 else 0
  }

  /** The unsigned value of a bit string: `UInt` of the Arm pseudocode. */
  function Val(x: Bits): nat {
    if x == [] then 0 else BitVal(x[0]) + 2 * Val(x[1..])
  }

  /** The low w bits of a number. */
  function FromNat(n: nat, w: nat): (x: Bits)
    ensures |x| == w
  {
    if w == 0 then [] else [n % 2 == 1] + FromNat(n / 2, w - 1)
  }

  function Zeros(n: nat): (x: Bits)
    ensures |x| == n
  {
    seq(n, _ => false)
  }

  function Ones(n: nat): (x: Bits)
    ensures |x| == n
  {
    seq(n, _ => true)
  }

  // The C operators <<, >>, ~ and the binary bitwise ones, at the width of their operand.

  function Shl(x: Bits, s: nat): (r: Bits)
    ensures |r| == |x|
  {
    seq(|x|, i requires 0 <= i < |x| => s <= i && x[i - s])
  }

  function Shr(x: Bits, s: nat): (r: Bits)
    ensures |r| == |x|
  {
    seq(|x|, i requires 0 <= i < |x| => i + s < |x| && x[i + s])
  }

  function Not(x: Bits): (r: Bits)
    ensures |r| == |x|
  {
    seq(|x|, i requires 0 <= i < |x| => !x[i])
  }

  datatype BitOp = And | Or | Xor

  function Apply(op: BitOp, a: bool, b: bool): bool {
    match op
    case And => a && b
    case Or => a || b
    case Xor => a != b
  }

  function Bitwise(op: BitOp, x: Bits, y: Bits): (r: Bits)
    requires |x| == |y|
    ensures |r| == |x|
  {
    seq(|x|, i requires 0 <= i < |x| => Apply(op, x[i], y[i]))
  }

  // ---- powers, quotients and remainders ----

  lemma {:induction false} Pow2Add(a: nat, b: nat)
    ensures Pow2(a + b) == Pow2(a) * Pow2(b)
  {
    if a == 0 {
    } else {
      Pow2Add(a - 1, b);
      assert Pow2(a + b) == 2 * Pow2(a - 1 + b);
      assert 2 * (Pow2(a - 1) * Pow2(b)) == (2 * Pow2(a - 1)) * Pow2(b);
    }
  }

  lemma Pow2Words()
    ensures Pow2(5) == 32 && Pow2(6) == 64 && Pow2(32) == 0x1_0000_0000
    ensures Pow2(64) == 0x1_0000_0000_0000_0000
  {
    assert Pow2(8) == 256;
    Pow2Add(8, 8);
    Pow2Add(16, 16);
    Pow2Add(32, 32);
  }

  lemma {:induction false} Pow2Exceeds(n: nat)
    ensures n < Pow2(n)
  {
    if n == 0 {
    } else {
      Pow2Exceeds(n - 1);
    }
  }

  lemma {:induction false} Pow2Monotone(a: nat, b: nat)
    requires a <= b
    ensures Pow2(a) <= Pow2(b)
    ensures a < b ==> 2 * Pow2(a) <= Pow2(b)
    decreases b - a
  {
    if a == b {
    } else {
      Pow2Monotone(a + 1, b);
    }
  }

  lemma MulAtLeast(d: nat, k: int)
    requires 1 <= k
    ensures d <= d * k
  {
  }

  /** Quotient and remainder are determined by n == d * q + r with r in range. */
  lemma DivModUnique(n: int, d: nat, q: int, r: int)
    requires 0 < d && 0 <= r < d
    requires n == d * q + r
    ensures n / d == q && n % d == r
  {
    var q', r' := n / d, n % d;
    assert n == d * q' + r';
    assert d * (q - q') == r' - r by {
      assert d * (q - q') == d * q - d * q';
    }
    assert d * (q' - q) == r - r' by {
      assert d * (q' - q) == d * q' - d * q;
    }
    if q' < q {
      MulAtLeast(d, q - q');
    } else if q < q' {
      MulAtLeast(d, q' - q);
    }
  }

  lemma ModShift(a: int, q: int, d: nat)
    requires 0 < d
    ensures (a + d * q) % d == a % d
  {
    assert a == d * (a / d) + a % d;
    assert d * (a / d + q) == d * (a / d) + d * q;
    DivModUnique(a + d * q, d, a / d + q, a % d);
  }

  lemma ModAddLeft(k: nat, r: nat, d: nat)
    requires 0 < d
    ensures (k % d + r) % d == (k + r) % d
  {
    ModShift(k % d + r, k / d, d);
    assert k == d * (k / d) + k % d;
  }

  // ---- values of bit strings ----

  lemma {:induction false} ValBound(x: Bits)
    ensures Val(x) < Pow2(|x|)
  {
    if x == [] {
    } else {
      ValBound(x[1..]);
    }
  }

  lemma {:induction false} ValAppend(a: Bits, b: Bits)
    ensures Val(a + b) == Val(a) + Pow2(|a|) * Val(b)
  {
    if a == [] {
      assert a + b == b;
    } else {
      ValAppend(a[1..], b);
      assert (a + b)[1..] == a[1..] + b;
      assert 2 * (Pow2(|a| - 1) * Val(b)) == (2 * Pow2(|a| - 1)) * Val(b);
    }
  }

  lemma {:induction false} ValZeros(n: nat)
    ensures Val(Zeros(n)) == 0
  {
    if n == 0 {
    } else {
      ValZeros(n - 1);
      assert Zeros(n)[1..] == Zeros(n - 1);
    }
  }

  lemma {:induction false} ValOnes(n: nat)
    ensures Val(Ones(n)) == Pow2(n) - 1
  {
    if n == 0 {
    } else {
      ValOnes(n - 1);
      assert Ones(n)[1..] == Ones(n - 1);
    }
  }

  lemma {:induction false} ValNot(x: Bits)
    ensures Val(Not(x)) == Pow2(|x|) - 1 - Val(x)
  {
    if x == [] {
    } else {
      ValNot(x[1..]);
      assert Not(x)[1..] == Not(x[1..]);
    }
  }

  lemma {:induction false} FromNatVal(x: Bits)
    ensures FromNat(Val(x), |x|) == x
  {
    if x == [] {
    } else {
      FromNatVal(x[1..]);
      assert [x[0]] + x[1..] == x;
    }
  }

  lemma ValInjective(x: Bits, y: Bits)
    requires |x| == |y| && Val(x) == Val(y)
    ensures x == y
  {
    FromNatVal(x);
    FromNatVal(y);
  }

  lemma ModDouble(n: nat, d: nat)
    requires 0 < d
    ensures n % (2 * d) == n % 2 + 2 * ((n / 2) % d)
  {
    var q, r := (n / 2) / d, (n / 2) % d;
    assert n / 2 == d * q + r;
    assert 2 * (d * q) == (2 * d) * q;
    DivModUnique(n, 2 * d, q, n % 2 + 2 * r);
  }

  lemma {:induction false} ValFromNat(n: nat, w: nat)
    ensures Val(FromNat(n, w)) == n % Pow2(w)
  {
    if w == 0 {
    } else {
      ValFromNat(n / 2, w - 1);
      assert FromNat(n, w)[1..] == FromNat(n / 2, w - 1);
      ModDouble(n, Pow2(w - 1));
    }
  }

  lemma FromNatSmall(n: nat, w: nat)
    requires n < Pow2(w)
    ensures Val(FromNat(n, w)) == n
  {
    ValFromNat(n, w);
    DivModUnique(n, Pow2(w), 0, n);
  }

  /** Cutting a bit string is dividing its value. */
  lemma ValCut(x: Bits, s: nat)
    requires s <= |x|
    ensures Val(x) / Pow2(s) == Val(x[s..])
    ensures Val(x) % Pow2(s) == Val(x[..s])
  {
    assert x == x[..s] + x[s..];
    ValAppend(x[..s], x[s..]);
    ValBound(x[..s]);
    DivModUnique(Val(x), Pow2(s), Val(x[s..]), Val(x[..s]));
  }

  lemma ValZeroExtend(x: Bits, n: nat)
    ensures Val(x + Zeros(n)) == Val(x)
  {
    ValAppend(x, Zeros(n));
    ValZeros(n);
  }
}
