/** The packed bit set: one bit a position, most significant bit of each byte first. */
module BoolSets {

  /** `GET_SINGLE_BIT` on a byte. */
  predicate SingleBit(b: bv8, i: nat)
    requires i < 8
  {
    (b >> i) & 1 == 1
  }

  predicate BitAt(buf: seq<bv8>, pos: nat)
    requires pos < 8 * |buf|
  {
    SingleBit(buf[pos / 8], 7 - pos % 8)
  }

  /** The positions whose bit is set. */
  ghost function Members(buf: seq<bv8>): set<nat> {
    set p: nat | p < 8 * |buf| && BitAt(buf, p)
  }

  /** The bits of a byte in the order of their positions. */
  const MASKS: seq<bv8> := [0x80, 0x40, 0x20, 0x10, 8, 4, 2, 1]

  /** Position p is in byte p / 8, and the first of a byte is its most significant bit. */
  lemma BitAtIs(buf: seq<bv8>, p: nat)
    requires p < 8 * |buf|
    ensures BitAt(buf, p) <==> buf[p / 8] & MASKS[p % 8] != 0
  {
    MaskedBit(buf[p / 8], p % 8);
  }

  lemma MaskedBit(b: bv8, i: nat)
    requires i < 8
    ensures SingleBit(b, 7 - i) <==> b & MASKS[i] != 0
  {
  }

  function ByteSize(bitCount: nat): nat {
    bitCount / 8 + (if bitCount % 8 != 0 then 1 else 0)
  }

  lemma OrBit(b: bv8, i: nat, j: nat)
    requires i < 8 && j < 8
    ensures SingleBit(b | (1 << i), j) == (i == j || SingleBit(b, j))
  {
  }

  lemma FilledByte(j: nat)
    requires j < 8
    ensures SingleBit(0xFF, j) && !SingleBit(0, j)
  {
  }

  /** The effect of `set_bit` on the buffer. */
  function WithBit(buf: seq<bv8>, pos: nat): (r: seq<bv8>)
    requires pos < 8 * |buf|
    ensures |r| == |buf|
  {
    buf[pos / 8 := buf[pos / 8] | (1 << (7 - pos % 8))]
  }

  /** Setting a position makes it a member and changes no other position, in its own byte or elsewhere. */
  lemma WithBitMembers(buf: seq<bv8>, pos: nat)
    requires pos < 8 * |buf|
    ensures Members(WithBit(buf, pos)) == Members(buf) + {pos}
  {
    forall p: nat | p < 8 * |buf|
      ensures BitAt(WithBit(buf, pos), p) <==> p == pos || BitAt(buf, p)
    {
      OrBit(buf[pos / 8], 7 - pos % 8, 7 - p % 8);
    }
  }

  /** What the name and the parameter of `set_bit` promise. */
  function Intended(s: set<nat>, pos: nat, value: bool): set<nat> {
    if value then s + {pos} else s - {pos}
  }

  /** The program ignores `value`, so the promise is kept exactly when true is passed. */
  lemma SetBitKeepsPromiseIff(buf: seq<bv8>, pos: nat, value: bool)
    requires pos < 8 * |buf|
    ensures Members(WithBit(buf, pos)) == Intended(Members(buf), pos, value) <==> value
  {
    WithBitMembers(buf, pos);
    assert pos in Members(WithBit(buf, pos));
  }

  class BoolSet {
    var buf: array<bv8>

    ghost function View(): set<nat>
      reads this, buf
    {
      Members(buf[..])
    }

    constructor (bitCount: nat)
      ensures fresh(buf) && buf.Length == ByteSize(bitCount) && bitCount <= 8 * buf.Length < bitCount + 8
      ensures View() == {}
    {
      buf := new bv8[bitCount / 8 + (if bitCount % 8 != 0 then 1 else 0)](_ => 0);
      new;
      forall p: nat | p < 8 * buf.Length
        ensures !BitAt(buf[..], p)
      {
        FilledByte(7 - p % 8);
      }
    }

    method GetBit(pos: nat) returns (r: bool)
      requires pos < 8 * buf.Length
      ensures r <==> pos in View()
    {
      var bytePos := pos / 8;
      var bitPos := 7 - pos % 8;
      r := SingleBit(buf[bytePos], bitPos);
    }

    method SetBit(pos: nat, value: bool)
      requires pos < 8 * buf.Length
      modifies buf
      ensures View() == old(View()) + {pos}
    {
      WithBitMembers(buf[..], pos);
      var bytePos := pos / 8;
      var bitPos := 7 - pos % 8;
      var b := buf[bytePos];
      b := b | (1 << bitPos);
      buf[bytePos] := b;
      assert buf[..] == WithBit(old(buf[..]), pos);
    }

    method SetAll(value: bool)
      modifies buf
      ensures forall p: nat | p < 8 * buf.Length :: p in View() <==> value
    {
      var byteVal: bv8 := if value then 0xFF else 0x00;
      forall i | 0 <= i < buf.Length {
        buf[i] := byteVal;
      }
      forall p: nat | p < 8 * buf.Length
        ensures BitAt(buf[..], p) <==> value
      {
        FilledByte(7 - p % 8);
      }
    }
  }
}
