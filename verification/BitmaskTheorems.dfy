/** What a bitmask immediate says about its encoding, and when the highest-bit scan ends. */
module BitmaskTheorems {
  import opened Bits
  import opened ArmAsl

  // ---- the mask determines the encoding ----

  /** Bit k of the infinite repetition of a mask with the given element size, S and R. */
  predicate RunBit(size: nat, s: nat, r: nat, k: nat)
    requires size > 0
  {
    (k + r) % size <= s
  }

  lemma ModSucc(n: nat, d: nat)
    requires 0 < d
    ensures (n + 1) % d == if n % d + 1 == d then 0 else n % d + 1
  {
    var q, t := n / d, n % d;
    assert n == d * q + t;
    if t + 1 == d {
      assert d * (q + 1) == d * q + d;
      DivModUnique(n + 1, d, q + 1, 0);
    } else {
      DivModUnique(n + 1, d, q, t + 1);
    }
  }

  /** A run starts at k + 1 exactly where k + 1 + R is a multiple of the element size. */
  lemma RisingEdge(size: nat, s: nat, r: nat, k: nat)
    requires s + 1 < size
    ensures !RunBit(size, s, r, k) && RunBit(size, s, r, k + 1) <==> (k + 1 + r) % size == 0
  {
    ModSucc(k + r, size);
  }

  lemma DividesOther(size1: nat, s1: nat, r1: nat, size2: nat, s2: nat, r2: nat)
    requires s1 + 1 < size1 && r1 < size1 && s2 + 1 < size2 && r2 < size2
    requires forall k: nat :: RunBit(size1, s1, r1, k) <==> RunBit(size2, s2, r2, k)
    ensures (size1 - r1 + r2) % size2 == 0
    ensures size2 <= size1
  {
    var k := size1 - 1 - r1;
    RisingEdge(size1, s1, r1, k);
    RisingEdge(size2, s2, r2, k);
    DivModUnique(size1, size1, 1, 0);
    assert RunBit(size2, s2, r2, k) == RunBit(size1, s1, r1, k);
    assert RunBit(size2, s2, r2, k + 1) == RunBit(size1, s1, r1, k + 1);
    var k' := k + size1;
    RisingEdge(size1, s1, r1, k');
    RisingEdge(size2, s2, r2, k');
    DivModUnique(2 * size1, size1, 2, 0);
    assert RunBit(size2, s2, r2, k') == RunBit(size1, s1, r1, k');
    assert RunBit(size2, s2, r2, k' + 1) == RunBit(size1, s1, r1, k' + 1);
    if size1 < size2 {
      MultiplesApart(k + 1 + r2, size1, size2);
    }
  }

  lemma MultiplesApart(n: nat, gap: nat, d: nat)
    requires 0 < gap < d && n % d == 0
    ensures (n + gap) % d != 0
  {
    assert n == d * (n / d);
    DivModUnique(n + gap, d, n / d, gap);
  }

  /** Equal repetitions have equal element size, S and R. */
  lemma RunsDetermine(size1: nat, s1: nat, r1: nat, size2: nat, s2: nat, r2: nat)
    requires s1 + 1 < size1 && r1 < size1 && s2 + 1 < size2 && r2 < size2
    requires forall k: nat :: RunBit(size1, s1, r1, k) <==> RunBit(size2, s2, r2, k)
    ensures size1 == size2 && s1 == s2 && r1 == r2
  {
    DividesOther(size1, s1, r1, size2, s2, r2);
    DividesOther(size2, s2, r2, size1, s1, r1);
    var d := size1 - r1 + r2;
    if d < size1 {
      DivModUnique(d, size1, 0, d);
    } else {
      DivModUnique(d, size1, 1, d - size1);
    }
    var low := if s1 < s2 then s1 else s2;
    var k := low + 1 + size1 - r1;
    DivModUnique(low + 1 + size1, size1, 1, low + 1);
    assert RunBit(size1, s1, r1, k) <==> RunBit(size2, s2, r2, k);
  }

  lemma RunRepeats(size: nat, s: nat, r: nat, q: nat, w: nat, k: nat)
    requires 0 < size && 0 < w == size * q
    ensures RunBit(size, s, r, k % w) <==> RunBit(size, s, r, k)
  {
    assert k == w * (k / w) + k % w;
    assert w * (k / w) == size * (q * (k / w));
    ModShift(k % w + r, q * (k / w), size);
  }

  lemma MaskOfRun(m: nat, len: nat, s: nat, r: nat, w: nat, k: nat)
    requires len <= m && s + 1 <= Pow2(len) && w == Pow2(m)
    ensures |MaskOf(m, len, s, r)| == w
    ensures MaskOf(m, len, s, r)[k % w] <==> RunBit(Pow2(len), s, r, k)
  {
    MaskIsExt(m, len, s, r, k % w);
    ElementExt(s, Pow2(len), k % w + r);
    Pow2Add(len, m - len);
    RunRepeats(Pow2(len), s, r, Pow2(m - len), w, k);
  }

  lemma MaskRun(immN: bool, imms: Bits, immr: Bits, w: nat, k: nat)
    requires |imms| == |immr| && !Reserved(immN, imms) && w == Pow2(|imms|)
    ensures |Mask(immN, imms, immr)| == w
    ensures Mask(immN, imms, immr)[k % w]
            <==> RunBit(Pow2(Len(immN, imms)), FieldS(immN, imms), FieldR(immN, imms, immr), k)
  {
    FieldsInRange(immN, imms, immr);
    MaskOfRun(|imms|, Len(immN, imms), FieldS(immN, imms), FieldR(immN, imms, immr), w, k);
  }

  lemma Pow2Injective(a: nat, b: nat)
    requires Pow2(a) == Pow2(b)
    ensures a == b
  {
    if a < b {
      Pow2Monotone(a, b);
    } else if b < a {
      Pow2Monotone(b, a);
    }
  }

  lemma FieldsInRange(immN: bool, imms: Bits, immr: Bits)
    requires |imms| == |immr| && !Reserved(immN, imms)
    ensures FieldS(immN, imms) + 1 < Pow2(Len(immN, imms))
    ensures FieldR(immN, imms, immr) < Pow2(Len(immN, imms))
  {
    ReservedSize(immN, imms);
    LevelsAnd(immr, Len(immN, imms));
  }

  lemma EqualMasksEqualFields(n1: bool, s1: Bits, r1: Bits, n2: bool, s2: Bits, r2: Bits)
    requires |s1| == |r1| == |s2| == |r2| && !Reserved(n1, s1) && !Reserved(n2, s2)
    requires Mask(n1, s1, r1) == Mask(n2, s2, r2)
    ensures Len(n1, s1) == Len(n2, s2)
    ensures FieldS(n1, s1) == FieldS(n2, s2) && FieldR(n1, s1, r1) == FieldR(n2, s2, r2)
  {
    FieldsInRange(n1, s1, r1);
    FieldsInRange(n2, s2, r2);
    forall k: nat
      ensures RunBit(Pow2(Len(n1, s1)), FieldS(n1, s1), FieldR(n1, s1, r1), k)
              <==> RunBit(Pow2(Len(n2, s2)), FieldS(n2, s2), FieldR(n2, s2, r2), k)
    {
      MaskRun(n1, s1, r1, Pow2(|s1|), k);
      MaskRun(n2, s2, r2, Pow2(|s1|), k);
    }
    RunsDetermine(Pow2(Len(n1, s1)), FieldS(n1, s1), FieldR(n1, s1, r1),
                  Pow2(Len(n2, s2)), FieldS(n2, s2), FieldR(n2, s2, r2));
    Pow2Injective(Len(n1, s1), Len(n2, s2));
  }

  /** The element size and S determine immN and every bit of imms. */
  lemma EqualFieldsEqualImms(n1: bool, s1: Bits, n2: bool, s2: Bits)
    requires |s1| == |s2| && !Reserved(n1, s1) && !Reserved(n2, s2)
    requires Len(n1, s1) == Len(n2, s2) && FieldS(n1, s1) == FieldS(n2, s2)
    ensures n1 == n2 && s1 == s2
  {
    hide Pow2, Val, Levels;
    var len := Len(n1, s1);
    LevelsAnd(s1, len);
    LevelsAnd(s2, len);
    ValInjective(s1[..len], s2[..len]);
    var a1, a2 := Not(s1) + [n1], Not(s2) + [n2];
    forall k | len <= k < |a1|
      ensures a1[k] == a2[k]
    {
      HighestSetIs(a1, k);
      HighestSetIs(a2, k);
    }
    assert a1[|s1|] == a2[|s1|];
    forall k | 0 <= k < |s1|
      ensures s1[k] == s2[k]
    {
      if k < len {
        assert s1[..len][k] == s2[..len][k];
      } else {
        assert a1[k] == a2[k];
      }
    }
  }

  /** Two accepted encodings give the same mask exactly when they agree on immN, on imms and on the
      bits of immr below the element size: the mask has lost nothing else. */
  lemma MaskInjective(n1: bool, s1: Bits, r1: Bits, n2: bool, s2: Bits, r2: Bits)
    requires |s1| == |r1| == |s2| == |r2| && Accepts(n1, s1) && Accepts(n2, s2)
    ensures !Reserved(n1, s1) && !Reserved(n2, s2)
    ensures Mask(n1, s1, r1) == Mask(n2, s2, r2)
            <==> n1 == n2 && s1 == s2 && r1[..Len(n1, s1)] == r2[..Len(n1, s1)]
  {
    AcceptsIffNotReserved(n1, s1);
    AcceptsIffNotReserved(n2, s2);
    var len := Len(n1, s1);
    LevelsAnd(r1, len);
    LevelsAnd(r2, len);
    if Mask(n1, s1, r1) == Mask(n2, s2, r2) {
      EqualMasksEqualFields(n1, s1, r1, n2, s2, r2);
      EqualFieldsEqualImms(n1, s1, n2, s2);
      ValInjective(r1[..len], r2[..len]);
    }
  }

  // ---- the scan that may not end ----

  /** The scan loop of HighestBitSet with its u8 counter, run for a number of iterations: the
      counter is never negative, so the exit test never fails and 0 is followed by 255. Testing a
      bit beyond the word reads the bit at that position modulo the width, as x86 shifts do. */
  function Scan(x: Bits, i: nat, steps: nat): (r: int)
    requires |x| > 0 && i < 256
    ensures r == -1 || 0 <= r < 256
    decreases steps
  {
    if steps == 0 then -1
    else if x[i % |x|] then i
    else Scan(x, if i == 0 then 255 else i - 1, steps - 1)
  }

  lemma {:induction false} ScanFinds(x: Bits, i: nat)
    requires i < |x| <= 256 && HighestSet(x[..i + 1]) >= 0
    ensures Scan(x, i, i + 1) == HighestSet(x[..i + 1])
  {
    DivModUnique(i, |x|, 0, i);
    if !x[i] {
      assert x[..i + 1][..i] == x[..i];
      ScanFinds(x, i - 1);
    } else {
      assert x[..i + 1][i];
    }
  }

  lemma {:induction false} ScanOfZero(x: Bits, i: nat, steps: nat)
    requires |x| > 0 && i < 256 && HighestSet(x) == -1
    ensures Scan(x, i, steps) == -1
    decreases steps
  {
    if steps == 0 {
    } else {
      HighestSetIs(x, i % |x|);
      ScanOfZero(x, if i == 0 then 255 else i - 1, steps - 1);
    }
  }

  function ScanFromTop(x: Bits, steps: nat): int
    requires 0 < |x| <= 256
  {
    Scan(x, |x| - 1, steps)
  }

  lemma ScanFromTopFinds(x: Bits)
    requires 0 < |x| <= 256 && HighestSet(x) >= 0
    ensures ScanFromTop(x, |x|) == HighestSet(x)
  {
    var i := |x| - 1;
    assert x[..i + 1] == x;
    ScanFinds(x, i);
  }

  /** The scan returns, with the highest set bit, exactly when its argument is not zero; on zero it
      never reaches the -1 that its last line promises. */
  lemma ScanReturnsIffNonzero(x: Bits)
    requires 0 < |x| <= 256
    ensures (exists n: nat :: ScanFromTop(x, n) != -1) <==> HighestSet(x) >= 0
    ensures HighestSet(x) >= 0 ==> ScanFromTop(x, |x|) == HighestSet(x)
  {
    if HighestSet(x) >= 0 {
      ScanFromTopFinds(x);
    } else {
      forall n: nat
        ensures ScanFromTop(x, n) == -1
      {
        ScanOfZero(x, |x| - 1, n);
      }
    }
  }

  /** The encoding immN = 0 with imms all ones is the one that makes the decoder's scan run for ever. */
  lemma ScanArgumentZeroIff(immN: bool, imms: Bits, w: nat)
    requires |imms| < w
    ensures HighestSet(ScanArgument(immN, imms, w)) == -1 <==> !immN && imms == Ones(|imms|)
  {
    ScanArgumentIs(immN, imms, w);
    var a := Not(imms) + [immN];
    if HighestSet(a) == -1 {
      forall k | 0 <= k < |a|
        ensures !a[k]
      {
        HighestSetIs(a, k);
      }
      assert !a[|imms|];
      forall k | 0 <= k < |imms|
        ensures imms[k]
      {
        assert !a[k];
      }
    } else {
      HighestSetIs(a, HighestSet(a));
    }
  }

  // ---- the program's ROR is not a rotation ----

  /** No bit of x lies at or above the element. */
  predicate Short(x: Bits, size: nat) {
    size <= |x| && forall p :: size <= p < |x| ==> !x[p]
  }

  /** Bit k of a short word after n steps: that of the repeated rotation, as far as the steps have carried
      it. Each step carries the bits size - 1 positions further. */
  predicate CarriedBit(x: Bits, size: nat, n: nat, k: nat)
    requires 0 < size <= |x|
  {
    k < size + n * (size - 1) && x[(k + n) % size]
  }

  lemma ShortWordBits(x: Bits, size: nat, n: nat, k: nat)
    requires 0 < size && Short(x, size) && k < |x|
    ensures UnmaskedBit(x, size, n, k) <==> CarriedBit(x, size, n, k)
  {
    var q := (k + n) / size;
    assert k + n == size * q + (k + n) % size;
    assert Origin(size, n, k, q) == (k + n) % size;
    QuotientAtMost(k + n, size, n);
    assert (n + 1) * size == size + n * (size - 1) + n;
    if UnmaskedBit(x, size, n, k) {
      var j :| 0 <= j <= n && 0 <= Origin(size, n, k, j) < |x| && x[Origin(size, n, k, j)];
      DivModUnique(k + n, size, j, Origin(size, n, k, j));
    }
  }

  lemma QuotientAtMost(a: nat, d: nat, n: nat)
    requires 0 < d
    ensures a / d <= n <==> a < (n + 1) * d
  {
    var q := a / d;
    assert a == d * q + a % d;
    if q <= n {
      assert d * q <= d * n;
    } else {
      assert d * (n + 1) <= d * q;
    }
  }

  /** r has the bits that the program's ROR gives. */
  ghost predicate IsRorOf(r: Bits, x: Bits, size: nat, n: nat) {
    |r| == |x| && forall k :: 0 <= k < |x| ==> (r[k] <==> UnmaskedBit(x, size, n, k))
  }

  lemma WithinReach(size: nat, n: nat, k: nat)
    requires 0 < size
    ensures k < size ==> k < size + n * (size - 1)
    ensures 1 < size && 2 <= n && k < 2 * size ==> k < size + n * (size - 1)
  {
    assert 0 <= n * (size - 1);
    if 1 < size && 2 <= n {
      assert 2 * (size - 1) <= n * (size - 1);
    }
  }

  lemma LowBitsRotated(x: Bits, size: nat, n: nat, k: nat)
    requires 0 < size <= |x| && k < size
    ensures ArmAsl.RotateRight(x[..size], n)[k] <==> CarriedBit(x, size, n, k)
  {
    hide ArmAsl.RotateRight;
    RotateRightAt(x[..size], n, k);
    WithinReach(size, n, k);
  }

  /** ROR of a short word is its true rotation exactly when no bit is carried past the element. */
  lemma NoStrayBitsIff(x: Bits, size: nat, n: nat, r: Bits)
    requires 0 < size && Short(x, size) && IsRorOf(r, x, size, n)
    ensures r == ArmAsl.RotateRight(x[..size], n) + Zeros(|x| - size)
            <==> forall k :: size <= k < |x| ==> !CarriedBit(x, size, n, k)
  {
    hide UnmaskedBit, CarriedBit, ArmAsl.RotateRight;
    var t := ArmAsl.RotateRight(x[..size], n) + Zeros(|x| - size);
    forall k | 0 <= k < |x|
      ensures r[k] <==> CarriedBit(x, size, n, k)
      ensures t[k] <==> k < size && r[k]
    {
      ShortWordBits(x, size, n, k);
      if k < size {
        LowBitsRotated(x, size, n, k);
      }
    }
    if forall k :: size <= k < |x| ==> !CarriedBit(x, size, n, k) {
      assert r == t;
    }
  }

  /** The first step carries every bit but the lowest past the element, and a second step the lowest. */
  lemma CarriesIff(x: Bits, size: nat, n: nat)
    requires 0 < size && Short(x, size) && (|x| == size || 2 * size <= |x|)
    ensures (forall k :: size <= k < |x| ==> !CarriedBit(x, size, n, k))
            <==> n == 0 || size == 1 || |x| == size || x == Zeros(|x|) || (n == 1 && x == x[..1] + Zeros(|x| - 1))
  {
    if n == 0 || size == 1 || |x| == size || x == Zeros(|x|) {
      assert n * (size - 1) == 0 || |x| == size || x == Zeros(|x|);
    } else if n == 1 {
      forall p | 0 < p < size
        ensures CarriedBit(x, size, n, p + size - 1) <==> x[p]
      {
        DivModUnique(p + size, size, 1, p);
      }
      forall k | size <= k < |x| && CarriedBit(x, size, n, k)
        ensures 0 < k + 1 - size < size && x[k + 1 - size]
      {
        DivModUnique(k + 1, size, 1, k + 1 - size);
      }
    } else {
      var p :| 0 <= p < |x| && x[p];
      var k := CarriedTo(x, size, n, p);
    }
  }

  lemma CarriedTo(x: Bits, size: nat, n: nat, p: nat) returns (k: nat)
    requires 1 < size && Short(x, size) && 2 * size <= |x| && 2 <= n && p < |x| && x[p]
    ensures size <= k < |x| && CarriedBit(x, size, n, k)
  {
    k := PositionOf(size, n, p);
    WithinReach(size, n, k);
  }

  /** The position of the second element that n steps bring bit p to. */
  lemma PositionOf(size: nat, n: nat, p: nat) returns (k: nat)
    requires p < size
    ensures size <= k < 2 * size && (k + n) % size == p
  {
    var q, t := n / size, n % size;
    assert n == size * q + t;
    if p >= t {
      k := size + p - t;
      assert size * (q + 1) == size * q + size;
      DivModUnique(k + n, size, q + 1, p);
    } else {
      k := 2 * size + p - t;
      assert size * (q + 2) == size * q + 2 * size;
      DivModUnique(k + n, size, q + 2, p);
    }
  }

  /** At the sizes the program uses: ROR of a short word is its true rotation if and only if nothing is
      rotated, or the element is one bit or the whole word, or a single step moves the lowest bit only. */
  lemma RorIsRotationIff(x: Bits, size: nat, n: nat, r: Bits)
    requires 0 < size && Short(x, size) && (|x| == size || 2 * size <= |x|) && IsRorOf(r, x, size, n)
    ensures r == ArmAsl.RotateRight(x[..size], n) + Zeros(|x| - size)
            <==> n == 0 || size == 1 || |x| == size || x == Zeros(|x|) || (n == 1 && x == x[..1] + Zeros(|x| - 1))
  {
    NoStrayBitsIff(x, size, n, r);
    CarriesIff(x, size, n);
  }

  lemma Pow2Bounds(len: nat, m: nat)
    requires len <= m
    ensures Pow2(len) == Pow2(m) <==> len == m
    ensures len < m ==> 2 * Pow2(len) <= Pow2(m)
  {
    Pow2Monotone(len, m);
  }

  /** In the decoder: the pattern is truly rotated if and only if R is 0, the element fills the word, or a
      single one is rotated by one. */
  lemma DecoderRotatesIff(m: nat, len: nat, s: nat, n: nat, r: Bits)
    requires len <= m && s + 1 < Pow2(len) <= Pow2(m)
    requires IsRorOf(r, Ones(s + 1) + Zeros(Pow2(m) - (s + 1)), Pow2(len), n)
    ensures r == ArmAsl.RotateRight(Element(s, Pow2(len)), n) + Zeros(Pow2(m) - Pow2(len))
            <==> n == 0 || len == m || (n == 1 && s == 0)
  {
    hide Pow2, IsRorOf, ArmAsl.RotateRight;
    Pow2Monotone(len, m);
    Pow2Bounds(len, m);
    var x := Ones(s + 1) + Zeros(Pow2(m) - (s + 1));
    assert x[..Pow2(len)] == Element(s, Pow2(len));
    assert x[0] != Zeros(|x|)[0];
    assert x == x[..1] + Zeros(|x| - 1) <==> s == 0 by {
      if s > 0 {
        assert x[1] != (x[..1] + Zeros(|x| - 1))[1];
      }
    }
    RorIsRotationIff(x, Pow2(len), n, r);
  }
}
