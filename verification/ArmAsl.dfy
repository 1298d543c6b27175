/** The bitmask-immediate decoder, for any register width 2^m (the program uses m = 6),
    against the Arm pseudocode `DecodeBitMasks` (DDI 0487 issue A.k, page J1-5282). */
module ArmAsl {
  import opened Bits

  // ---- the Arm pseudocode ----

  /** `HighestSetBit`: -1 when no bit is set. */
  function HighestSet(x: Bits): (r: int)
    ensures -1 <= r < |x|
  {
    if x == [] then -1
    else if x[|x| - 1] then |x| - 1
    else HighestSet(x[..|x| - 1])
  }

  /** `ROR(x, shift)`: a true rotation. */
  function RotateRight(x: Bits, shift: nat): (r: Bits)
    requires |x| > 0
    ensures |r| == |x|
  {
    x[shift % |x|..] + x[..shift % |x|]
  }

  /** `Replicate(x, n)`. */
  function Replicate(x: Bits, n: nat): Bits {
    if n == 0 then [] else x + Replicate(x, n - 1)
  }

  function Len(immN: bool, imms: Bits): (r: int)
    ensures -1 <= r <= |imms|
  {
    HighestSet(Not(imms) + [immN])
  }

  /** `levels = ZeroExtend(Ones(len), m)`. */
  function Levels(len: nat, m: nat): (r: Bits)
    requires len <= m
    ensures |r| == m
  {
    Ones(len) + Zeros(m - len)
  }

  /** Where the pseudocode ends in ReservedValue(), with `immediate` true. */
  predicate Reserved(immN: bool, imms: Bits) {
    var len := Len(immN, imms);
    len < 1 || Bitwise(And, imms, Levels(len, |imms|)) == Levels(len, |imms|)
  }

  function FieldS(immN: bool, imms: Bits): nat
    requires Len(immN, imms) >= 0
  {
    Val(Bitwise(And, imms, Levels(Len(immN, imms), |imms|)))
  }

  function FieldR(immN: bool, imms: Bits, immr: Bits): nat
    requires |imms| == |immr| && Len(immN, imms) >= 0
  {
    Val(Bitwise(And, immr, Levels(Len(immN, imms), |imms|)))
  }

  /** `ZeroExtend(Ones(s + 1), size)`. */
  function Element(s: nat, size: nat): (e: Bits)
    requires s + 1 <= size
    ensures |e| == size
  {
    Ones(s + 1) + Zeros(size - (s + 1))
  }

  /** `Replicate(ROR(welem, r))` of width 2^m for elements of width 2^len. */
  function MaskOf(m: nat, len: nat, s: nat, r: nat): Bits
    requires len <= m && s + 1 <= Pow2(len)
  {
    Replicate(RotateRight(Element(s, Pow2(len)), r), Pow2(m - len))
  }

  /** `wmask`, a bit string of width 2^m where m is the width of imms and immr. */
  function Mask(immN: bool, imms: Bits, immr: Bits): Bits
    requires |imms| == |immr| && !Reserved(immN, imms)
  {
    ReservedSize(immN, imms);
    MaskOf(|imms|, Len(immN, imms), FieldS(immN, imms), FieldR(immN, imms, immr))
  }

  // ---- field arithmetic ----

  lemma LevelsAnd(x: Bits, len: nat)
    requires len <= |x|
    ensures Bitwise(And, x, Levels(len, |x|)) == x[..len] + Zeros(|x| - len)
    ensures Val(Bitwise(And, x, Levels(len, |x|))) == Val(x[..len]) < Pow2(len)
  {
    assert Bitwise(And, x, Levels(len, |x|)) == x[..len] + Zeros(|x| - len);
    ValZeroExtend(x[..len], |x| - len);
    ValBound(x[..len]);
  }

  /** `size - 1` as the program writes it is the pseudocode's `levels`. */
  lemma LevelsFromNat(len: nat, m: nat)
    requires len <= m
    ensures Val(Levels(len, m)) == Pow2(len) - 1
    ensures FromNat(Pow2(len) - 1, m) == Levels(len, m)
  {
    ValOnes(len);
    ValZeroExtend(Ones(len), m - len);
    FromNatVal(Levels(len, m));
  }

  lemma ReservedSize(immN: bool, imms: Bits)
    requires Len(immN, imms) >= 0
    ensures FieldS(immN, imms) < Pow2(Len(immN, imms))
    ensures Reserved(immN, imms) <==>
            Len(immN, imms) < 1 || FieldS(immN, imms) == Pow2(Len(immN, imms)) - 1
  {
    var len := Len(immN, imms);
    LevelsAnd(imms, len);
    LevelsFromNat(len, |imms|);
    if FieldS(immN, imms) == Pow2(len) - 1 {
      ValInjective(Bitwise(And, imms, Levels(len, |imms|)), Levels(len, |imms|));
    }
  }

  lemma {:induction false} HighestSetIs(x: Bits, k: nat)
    requires k < |x|
    ensures x[k] ==> k <= HighestSet(x)
    ensures HighestSet(x) == k ==> x[k]
    ensures HighestSet(x) < k ==> !x[k]
  {
    if k == |x| - 1 {
    } else if x[|x| - 1] {
    } else {
      HighestSetIs(x[..|x| - 1], k);
    }
  }

  // ---- periodic extension ----

  /** Bit k of the infinite repetition of e. */
  function Ext(e: Bits, k: nat): bool
    requires |e| > 0
  {
    e[k % |e|]
  }

  lemma ExtPeriod(e: Bits, k: nat, q: nat)
    requires |e| > 0
    ensures Ext(e, k + |e| * q) == Ext(e, k)
  {
    ModShift(k, q, |e|);
  }

  lemma RotateRightAt(e: Bits, i: nat, k: nat)
    requires |e| > 0 && k < |e|
    ensures RotateRight(e, i)[k] == Ext(e, k + i)
  {
    var n := |e|;
    assert i == n * (i / n) + i % n;
    ModShift(k + i % n, i / n, n);
    if k + i % n < n {
      DivModUnique(k + i % n, n, 0, k + i % n);
    } else {
      DivModUnique(k + i % n, n, 1, k + i % n - n);
    }
  }

  lemma {:induction false} ReplicateAt(e: Bits, n: nat, k: nat)
    requires |e| > 0
    ensures |Replicate(e, n)| == |e| * n
    ensures k < |e| * n ==> Replicate(e, n)[k] == Ext(e, k)
  {
    if n == 0 {
    } else {
      assert |e| * n == |e| + |e| * (n - 1);
      if k < |e| {
        ReplicateAt(e, n - 1, 0);
        DivModUnique(k, |e|, 0, k);
      } else {
        ReplicateAt(e, n - 1, k - |e|);
        ExtPeriod(e, k - |e|, 1);
      }
    }
  }

  // ---- the program ----

  /** One iteration of the program's ROR: the bit leaving at the bottom reappears at
      bitSize - 1, but the other bits shifted left by bitSize - 1 are never cleared. */
  function RorStep(x: Bits, bitSize: nat): (r: Bits)
    requires 0 < bitSize
    ensures |r| == |x|
  {
    Bitwise(Or, Shl(x, bitSize - 1), Shr(x, 1))
  }

  function RorSteps(x: Bits, bitSize: nat, shift: nat): (r: Bits)
    requires 0 < bitSize
    ensures |r| == |x|
  {
    if shift == 0 then x else RorStep(RorSteps(x, bitSize, shift - 1), bitSize)
  }

  /** The position whose bit comes to position k when j of the steps shift it left by bitSize - 1 and the
      others shift it right by 1. */
  function Origin(bitSize: nat, shift: nat, k: nat, j: nat): int {
    k + shift - j * bitSize
  }

  /** Bit k after unmasked steps: every bit of x reaches all the positions that some number of left shifts
      takes it to, and nothing below the top of the word is cleared on the way. */
  ghost predicate UnmaskedBit(x: Bits, bitSize: nat, shift: nat, k: nat) {
    exists j {:trigger Origin(bitSize, shift, k, j)} ::
      0 <= j <= shift && 0 <= Origin(bitSize, shift, k, j) < |x| && x[Origin(bitSize, shift, k, j)]
  }

  lemma OriginSteps(bitSize: nat, shift: nat, k: nat, j: nat)
    ensures Origin(bitSize, shift, k + 1, j) == Origin(bitSize, shift + 1, k, j)
    ensures bitSize - 1 <= k && 0 < bitSize ==>
              Origin(bitSize, shift, k - (bitSize - 1), j) == Origin(bitSize, shift + 1, k, j + 1)
  {
    assert (j + 1) * bitSize == j * bitSize + bitSize;
  }

  /** The two ways for a bit to come to position k in the last step. */
  lemma UnmaskedStep(x: Bits, bitSize: nat, shift: nat, k: nat)
    requires 0 < bitSize <= |x| && k < |x|
    ensures UnmaskedBit(x, bitSize, shift + 1, k)
            <==> (bitSize - 1 <= k && UnmaskedBit(x, bitSize, shift, k - (bitSize - 1)))
                 || (k + 1 < |x| && UnmaskedBit(x, bitSize, shift, k + 1))
  {
    var n := shift + 1;
    if UnmaskedBit(x, bitSize, n, k) {
      var j :| 0 <= j <= n && 0 <= Origin(bitSize, n, k, j) < |x| && x[Origin(bitSize, n, k, j)];
      if j <= shift && k + 1 < |x| {
        OriginSteps(bitSize, shift, k, j);
      } else {
        LastStepLeft(|x|, bitSize, shift, k, j);
        OriginSteps(bitSize, shift, k, j - 1);
        assert Origin(bitSize, shift, k - (bitSize - 1), j - 1) == Origin(bitSize, n, k, j);
      }
    }
    if bitSize - 1 <= k && UnmaskedBit(x, bitSize, shift, k - (bitSize - 1)) {
      var p := k - (bitSize - 1);
      var j :| 0 <= j <= shift && 0 <= Origin(bitSize, shift, p, j) < |x| && x[Origin(bitSize, shift, p, j)];
      OriginSteps(bitSize, shift, k, j);
      assert Origin(bitSize, n, k, j + 1) == Origin(bitSize, shift, p, j);
    }
    if k + 1 < |x| && UnmaskedBit(x, bitSize, shift, k + 1) {
      var j :| 0 <= j <= shift && 0 <= Origin(bitSize, shift, k + 1, j) < |x| && x[Origin(bitSize, shift, k + 1, j)];
      OriginSteps(bitSize, shift, k, j);
    }
  }

  lemma StepsReach(d: nat, j: nat)
    requires 1 <= j
    ensures j + d <= j * (d + 1)
  {
    MulAtLeast(d, j);
    assert j * (d + 1) == d * j + j;
  }

  /** A bit that left shifts alone bring to k, or that ends at the top of the word, can make the last step
      a left shift. */
  lemma LastStepLeft(w: nat, bitSize: nat, shift: nat, k: nat, j: nat)
    requires 0 < bitSize <= w && k < w && j <= shift + 1 && 0 <= Origin(bitSize, shift + 1, k, j) < w
    requires j == shift + 1 || k + 1 == w
    ensures 0 < j && bitSize - 1 <= k
  {
    if j == shift + 1 {
      StepsReach(bitSize - 1, j);
    }
  }

  lemma NoSteps(x: Bits, bitSize: nat, k: nat)
    requires k < |x|
    ensures UnmaskedBit(x, bitSize, 0, k) <==> x[k]
  {
    assert Origin(bitSize, 0, k, 0) == k;
  }

  lemma RorStepBit(x: Bits, bitSize: nat, k: nat)
    requires 0 < bitSize && k < |x|
    ensures RorStep(x, bitSize)[k] == ((bitSize - 1 <= k && x[k - (bitSize - 1)]) || (k + 1 < |x| && x[k + 1]))
  {
  }

  lemma {:induction false} RorStepsBits(x: Bits, bitSize: nat, shift: nat, k: nat)
    requires 0 < bitSize <= |x| && k < |x|
    ensures RorSteps(x, bitSize, shift)[k] <==> UnmaskedBit(x, bitSize, shift, k)
  {
    hide UnmaskedBit, RorStep;
    if shift == 0 {
      NoSteps(x, bitSize, k);
    } else {
      var r := RorSteps(x, bitSize, shift - 1);
      RorStepBit(r, bitSize, k);
      UnmaskedStep(x, bitSize, shift - 1, k);
      if bitSize - 1 <= k {
        RorStepsBits(x, bitSize, shift - 1, k - (bitSize - 1));
      }
      if k + 1 < |x| {
        RorStepsBits(x, bitSize, shift - 1, k + 1);
      }
    }
  }

  /** No bit is ever cleared but those shifted out of the word. */
  method ROR(x: Bits, bitSize: nat, shift: nat) returns (r: Bits)
    requires 0 < bitSize
    ensures r == RorSteps(x, bitSize, shift) && |r| == |x|
    ensures bitSize <= |x| ==> forall k :: 0 <= k < |x| ==> (r[k] <==> UnmaskedBit(x, bitSize, shift, k))
  {
    if bitSize <= |x| {
      forall k | 0 <= k < |x|
        ensures RorSteps(x, bitSize, shift)[k] <==> UnmaskedBit(x, bitSize, shift, k)
      {
        RorStepsBits(x, bitSize, shift, k);
      }
    }
    r := x;
    for i := 0 to shift
      invariant r == RorSteps(x, bitSize, i)
    {
      r := Bitwise(Or, Shl(r, bitSize - 1), Shr(r, 1));
    }
  }

  /** x carries the pattern e rotated by i: exactly so on its low n bits, and above them it has
      no bit outside the periodic extension of that pattern. */
  ghost predicate Covers(x: Bits, e: Bits, i: nat, n: nat)
    requires |e| > 0
  {
    && (forall k {:trigger x[k]} :: 0 <= k < |x| && k < n ==> x[k] == Ext(e, k + i))
    && (forall k {:trigger x[k]} :: 0 <= k < |x| && x[k] ==> Ext(e, k + i))
  }

  lemma RorStepCovers(x: Bits, e: Bits, i: nat)
    requires 0 < |e| <= |x| && Covers(x, e, i, |e|)
    ensures Covers(RorStep(x, |e|), e, i + 1, |e|)
  {
    var n, r := |e|, RorStep(x, |e|);
    forall k | 0 <= k < |x|
      ensures r[k] ==> Ext(e, k + (i + 1))
      ensures k < n ==> r[k] == Ext(e, k + (i + 1))
    {
      assert r[k] == ((n - 1 <= k && x[k - (n - 1)]) || (k + 1 < |x| && x[k + 1]));
      if n - 1 <= k {
        ExtPeriod(e, k - (n - 1) + i, 1);
        assert k - (n - 1) + i + n * 1 == k + (i + 1);
      }
      assert k + 1 + i == k + (i + 1);
    }
  }

  /** The unmasked rotation is safe: after any number of steps the low |e| bits hold e truly
      rotated, and every stray bit above them lies inside the repetition of that rotation. */
  lemma {:induction false} RorStepsCover(x: Bits, e: Bits, shift: nat)
    requires 0 < |e| <= |x| && Covers(x, e, 0, |e|)
    ensures Covers(RorSteps(x, |e|, shift), e, shift, |e|)
    ensures forall k :: 0 <= k < |e| ==> RorSteps(x, |e|, shift)[k] == RotateRight(e, shift)[k]
  {
    if shift == 0 {
    } else {
      RorStepsCover(x, e, shift - 1);
      RorStepCovers(RorSteps(x, |e|, shift - 1), e, shift - 1);
    }
    forall k | 0 <= k < |e|
      ensures RorSteps(x, |e|, shift)[k] == RotateRight(e, shift)[k]
    {
      RotateRightAt(e, shift, k);
    }
  }

  /** One iteration of the doubling loop, for any width that is a multiple of the period. */
  lemma DoublingCovers(x: Bits, e: Bits, i: nat, size: nat, q: nat)
    requires |e| > 0 && size == |e| * q && Covers(x, e, i, size)
    ensures Covers(Bitwise(Or, x, Shl(x, size)), e, i, 2 * size)
  {
    var r := Bitwise(Or, x, Shl(x, size));
    forall k | 0 <= k < |x|
      ensures r[k] ==> Ext(e, k + i)
      ensures k < 2 * size ==> r[k] == Ext(e, k + i)
    {
      assert r[k] == (x[k] || (size <= k && x[k - size]));
      if size <= k {
        ExtPeriod(e, k - size + i, q);
        assert k - size + i + |e| * q == k + i;
      }
    }
  }

  lemma DoublingStep(x: Bits, e: Bits, i: nat, len: nat, j: nat)
    requires len <= j && |e| == Pow2(len) && Covers(x, e, i, Pow2(j))
    ensures Covers(Bitwise(Or, x, Shl(x, Pow2(j))), e, i, 2 * Pow2(j))
  {
    Pow2Add(len, j - len);
    DoublingCovers(x, e, i, Pow2(j), Pow2(j - len));
  }

  /** The scan from the top bit down. A zero argument is excluded; see ScanReturnsIffNonzero. */
  method HighestBitSet(x: Bits) returns (i: nat)
    requires HighestSet(x) >= 0
    ensures i == HighestSet(x)
  {
    i := |x| - 1;
    assert x[..i + 1] == x;
    while !x[i]
      invariant i < |x| && HighestSet(x[..i + 1]) == HighestSet(x)
      decreases i
    {
      assert x[..i + 1][..i] == x[..i];
      i := i - 1;
    }
    assert x[..i + 1][i];
  }

  lemma OneShifted(n: nat, w: nat)
    requires n < w
    ensures Val(Shl([true] + Zeros(w - 1), n)) == Pow2(n)
    ensures FromNat(Pow2(n) - 1, w) == Ones(n) + Zeros(w - n)
  {
    assert Shl([true] + Zeros(w - 1), n) == Zeros(n) + ([true] + Zeros(w - n - 1));
    ValAppend(Zeros(n), [true] + Zeros(w - n - 1));
    ValZeros(n);
    ValAppend([true], Zeros(w - n - 1));
    ValZeros(w - n - 1);
    ValOnes(n);
    ValZeroExtend(Ones(n), w - n);
    FromNatVal(Ones(n) + Zeros(w - n));
  }

  lemma {:induction false} HighestSetZeroExtend(x: Bits, n: nat)
    ensures HighestSet(x + Zeros(n)) == HighestSet(x)
  {
    if n == 0 {
      assert x + Zeros(0) == x;
    } else {
      assert (x + Zeros(n))[..|x| + n - 1] == x + Zeros(n - 1);
      HighestSetZeroExtend(x, n - 1);
    }
  }

  /** The argument the program builds for HighestBitSet, in a word of width w:
      (immN << m) | (~imms & MAX_VAL_FOR_SIZE(m)), where MAX_VAL_FOR_SIZE(m) is an all-ones word
      shifted right by w - m. */
  function ScanArgument(immN: bool, imms: Bits, w: nat): (r: Bits)
    requires |imms| < w
    ensures |r| == w
  {
    Bitwise(Or, Shl([immN] + Zeros(w - 1), |imms|),
            Bitwise(And, Not(imms + Zeros(w - |imms|)), Shr(Ones(w), w - |imms|)))
  }

  /** It is the pseudocode's immN:NOT(imms), zero-extended. */
  lemma ScanArgumentIs(immN: bool, imms: Bits, w: nat)
    requires |imms| < w
    ensures ScanArgument(immN, imms, w) == (Not(imms) + [immN]) + Zeros(w - |imms| - 1)
    ensures HighestSet(ScanArgument(immN, imms, w)) == Len(immN, imms)
  {
    assert ScanArgument(immN, imms, w) == (Not(imms) + [immN]) + Zeros(w - |imms| - 1);
    HighestSetZeroExtend(Not(imms) + [immN], w - |imms| - 1);
  }

  /** What the program demands of its fields: the scan returns, the pattern length is positive and
      the run of ones does not fill the element. The last two are assertions in the program. */
  predicate Accepts(immN: bool, imms: Bits) {
    var len := Len(immN, imms);
    len > 0 && FieldOf(imms, len) != Pow2(len) - 1
  }

  /** `field & (size - 1)`, where size is 1 << len. */
  function FieldOf(field: Bits, len: nat): nat {
    Val(Bitwise(And, field, FromNat(Pow2(len) - 1, |field|)))
  }

  /** The program accepts exactly the encodings the architecture does not reserve. */
  lemma AcceptsIffNotReserved(immN: bool, imms: Bits)
    ensures Accepts(immN, imms) <==> !Reserved(immN, imms)
  {
    if Len(immN, imms) > 0 {
      ReservedSize(immN, imms);
      LevelsFromNat(Len(immN, imms), |imms|);
    }
  }

  lemma StartPattern(s: nat, size: nat, w: nat, r: nat)
    requires s + 1 <= size <= w && s + 1 < w
    ensures Val(Shl([true] + Zeros(w - 1), s + 1)) > 0
    ensures Covers(RorSteps(FromNat(Val(Shl([true] + Zeros(w - 1), s + 1)) - 1, w), size, r), Element(s, size), r, size)
  {
    OneShifted(s + 1, w);
    StartCovers(s + 1, size, w);
    RorStepsCover(Ones(s + 1) + Zeros(w - (s + 1)), Element(s, size), r);
  }

  /** The doubling loop: a word right on its low `size` bits is made right on all of them. */
  method FillPattern(start: Bits, len: nat, ghost m: nat, ghost e: Bits, ghost r: nat) returns (pattern: Bits)
    requires len <= m && |e| == Pow2(len) && |start| == Pow2(m) && Covers(start, e, r, Pow2(len))
    ensures |pattern| == |start| && Covers(pattern, e, r, |pattern|)
  {
    pattern := start;
    var size := Pow2(len);
    ghost var j := len;
    Pow2Monotone(len, m);
    while size != |start|
      invariant len <= j <= m && size == Pow2(j) <= |start| == |pattern| == Pow2(m)
      invariant Covers(pattern, e, r, size)
      decreases |start| - size
    {
      DoublingStep(pattern, e, r, len, j);
      Pow2Monotone(j, m);
      pattern := Bitwise(Or, pattern, Shl(pattern, size));
      size := size * 2;
      j := j + 1;
    }
  }

  /** The decoder after its fields are known. */
  method BuildMask(m: nat, len: nat, s: nat, r: nat) returns (pattern: Bits)
    requires len <= m && s + 1 < Pow2(len)
    ensures pattern == MaskOf(m, len, s, r)
  {
    var w, size := Pow2(m), Pow2(len);
    Pow2Monotone(len, m);
    StartPattern(s, size, w, r);
    pattern := FromNat(Val(Shl([true] + Zeros(w - 1), s + 1)) - 1, w);
    pattern := ROR(pattern, size, r);
    pattern := FillPattern(pattern, len, m, Element(s, size), r);
    MaskFilled(m, len, s, r, pattern);
  }

  lemma FieldOfIs(immN: bool, imms: Bits, field: Bits)
    requires Len(immN, imms) >= 0 && |field| == |imms|
    ensures FieldOf(field, Len(immN, imms)) == Val(Bitwise(And, field, Levels(Len(immN, imms), |imms|)))
  {
    LevelsFromNat(Len(immN, imms), |imms|);
  }

  /** The program's decoder computes the architecture's mask. */
  method DecodeBitMasks(immN: bool, imms: Bits, immr: Bits) returns (pattern: Bits)
    requires |imms| == |immr| && Accepts(immN, imms)
    ensures !Reserved(immN, imms) && pattern == Mask(immN, imms, immr)
  {
    AcceptsIffNotReserved(immN, imms);
    Pow2Exceeds(|imms|);
    ScanArgumentIs(immN, imms, Pow2(|imms|));
    var len := HighestBitSet(ScanArgument(immN, imms, Pow2(|imms|)));
    var s := FieldOf(imms, len);
    var r := FieldOf(immr, len);
    FieldOfIs(immN, imms, imms);
    FieldOfIs(immN, imms, immr);
    ReservedSize(immN, imms);
    pattern := BuildMask(|imms|, len, s, r);
  }

  lemma StartCovers(n: nat, size: nat, w: nat)
    requires 0 < n <= size <= w
    ensures Covers(Ones(n) + Zeros(w - n), Ones(n) + Zeros(size - n), 0, size)
  {
    var e := Ones(n) + Zeros(size - n);
    forall k {:trigger Ext(e, k)} | 0 <= k < size
      ensures Ext(e, k) == e[k]
    {
      DivModUnique(k, size, 0, k);
    }
  }

  lemma ReplicateRotatedAt(e: Bits, r: nat, n: nat, k: nat)
    requires |e| > 0
    ensures |Replicate(RotateRight(e, r), n)| == |e| * n
    ensures k < |e| * n ==> Replicate(RotateRight(e, r), n)[k] == Ext(e, k + r)
  {
    ReplicateAt(RotateRight(e, r), n, k);
    RotateRightAt(e, r, k % |e|);
    ModAddLeft(k, r, |e|);
  }

  lemma MaskIsExt(m: nat, len: nat, s: nat, r: nat, k: nat)
    requires len <= m && s + 1 <= Pow2(len)
    ensures |MaskOf(m, len, s, r)| == Pow2(m)
    ensures k < Pow2(m) ==> MaskOf(m, len, s, r)[k] == Ext(Element(s, Pow2(len)), k + r)
  {
    Pow2Add(len, m - len);
    ReplicateRotatedAt(Element(s, Pow2(len)), r, Pow2(m - len), k);
  }

  lemma MaskFilled(m: nat, len: nat, s: nat, r: nat, pattern: Bits)
    requires len <= m && s + 1 <= Pow2(len)
    requires |pattern| == Pow2(m) && Covers(pattern, Element(s, Pow2(len)), r, |pattern|)
    ensures pattern == MaskOf(m, len, s, r)
  {
    MaskIsExt(m, len, s, r, 0);
    forall k | 0 <= k < |pattern|
      ensures pattern[k] == MaskOf(m, len, s, r)[k]
    {
      MaskIsExt(m, len, s, r, k);
    }
  }

  // ---- what the mask is ----

  lemma ElementExt(s: nat, size: nat, k: nat)
    requires s + 1 <= size
    ensures Ext(Element(s, size), k) <==> k % size <= s
  {
  }

  lemma MaskOfBit(m: nat, len: nat, s: nat, r: nat, k: nat)
    requires len <= m && s + 1 <= Pow2(len)
    ensures |MaskOf(m, len, s, r)| == Pow2(m)
    ensures k < Pow2(m) ==> (MaskOf(m, len, s, r)[k] <==> (k + r) % Pow2(len) <= s)
  {
    MaskIsExt(m, len, s, r, k);
    ElementExt(s, Pow2(len), k + r);
  }

  /** Bit k of the mask is set exactly when position k + R, within its element, is at most S. */
  lemma MaskBit(immN: bool, imms: Bits, immr: Bits, len: nat, s: nat, r: nat, k: nat)
    requires |imms| == |immr| && !Reserved(immN, imms)
    requires len == Len(immN, imms) && s == FieldS(immN, imms) && r == FieldR(immN, imms, immr)
    ensures |Mask(immN, imms, immr)| == Pow2(|imms|)
    ensures k < Pow2(|imms|) ==> (Mask(immN, imms, immr)[k] <==> (k + r) % Pow2(len) <= s)
  {
    ReservedSize(immN, imms);
    MaskOfBit(|imms|, len, s, r, k);
  }
}
