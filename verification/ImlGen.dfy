/** Generation of the intermediate code of a whole buffer: `imlgen` and `imlgen_recurse`. */
module ImlGen {
  import opened Pools
  import opened BoolSets
  import opened Iml
  import opened Layout
  import opened TreePool
  import opened Records
  import opened Decode
  import opened DecodePool
  import opened ProgramLayout

  /** The buffer, as its little-endian 32-bit words: every word is accepted by the decoder, and the
      records cannot overflow a u32. */
  predicate CodeOk(words: seq<bv32>) {
    && MAX_PER_WORD * |words| <= LIMIT
    && forall k :: 0 <= k < |words| ==> Accepts(words[k])
  }

  function Items(words: seq<bv32>): (r: seq<Item>)
    requires CodeOk(words)
    ensures |r| == |words| && ItemsOk(r)
  {
    ItemsFit(words);
    seq(|words|, k requires 0 <= k < |words| => Describe(words[k]))
  }

  lemma ItemsFit(words: seq<bv32>)
    requires CodeOk(words)
    ensures forall k :: 0 <= k < |words| ==> ItemOk(Describe(words[k]))
  {
    forall k | 0 <= k < |words|
      ensures ItemOk(Describe(words[k]))
    {
      DescribeOk(words[k]);
    }
  }

  /** The positions from a up to but not including b. */
  function Range(a: nat, b: int): (r: set<nat>)
    ensures forall j: nat :: j in r <==> a <= j < b
    decreases b - a
  {
    if a >= b then {} else {a} + Range(a + 1, b)
  }

  /** The byte position at which the recursion reads its last word, in a buffer of the given size. */
  function LastRead(size: nat, pos: nat): nat
    decreases size - pos
  {
    if pos + 4 < size then LastRead(size, pos + 4) else pos
  }

  /** The recursion stays inside its buffer exactly when the size is a whole number of words, which is
      why a buffer is modelled as its words. */
  lemma {:induction false} ReadsInsideIff(size: nat, pos: nat)
    requires pos < size && pos % 4 == 0
    ensures LastRead(size, pos) + 4 <= size <==> size % 4 == 0
    decreases size - pos
  {
    if pos + 4 >= size {
    } else {
      ReadsInsideIff(size, pos + 4);
    }
  }

  class Program {
    const code: seq<bv32>
    const imlPool: Pool
    const decoded: BoolSet
    ghost const items: seq<Item>

    ghost predicate Valid()
      reads this, imlPool, imlPool.data, decoded, decoded.buf
    {
      && CodeOk(code) && items == Items(code)
      && Ready(imlPool, imlPool.initial)
      && |code| <= 8 * decoded.buf.Length
      && imlPool.data as object != decoded.buf as object
    }

    /** `imlgen` before its call of `imlgen_recurse`. */
    constructor (words: seq<bv32>)
      requires CodeOk(words)
      ensures Valid() && code == words && items == Items(words)
      ensures fresh(imlPool) && fresh(imlPool.data) && fresh(decoded) && fresh(decoded.buf)
      ensures imlPool.initial == |words| * SIZEOF_INSTRUCTION && imlPool.Contents() == [] && decoded.View() == {}
    {
      code := words;
      items := Items(words);
      imlPool := new Pool.Open(|words| * SIZEOF_INSTRUCTION);
      decoded := new BoolSet(|words|);
    }

    /** Decodes one word and pushes its instruction, not yet linked. */
    method DecodeAndPush(k: nat) returns (i: Instruction, handle: nat)
      requires Valid() && k < |code| && imlPool.Contents() == Unlinked(items, k)
      modifies imlPool, imlPool.data
      ensures Valid() && imlPool.initial == old(imlPool.initial)
      ensures imlPool.data == old(imlPool.data) || fresh(imlPool.data)
      ensures imlPool.Contents() == Unlinked(items, k + 1)
      ensures i == EmissionOf(items, k).instr && handle == InstrHandle(items, k)
    {
      ghost var before, initial := imlPool.Contents(), imlPool.initial;
      ghost var e := EmissionOf(items, k);
      assert before + SerAll([]) == before;
      i := DecodeWord(imlPool, code[k], initial, before);
      assert |imlPool.Contents()| == imlPool.pos;
      handle := PushRecord(imlPool, SerInstruction(i), initial, before, SerAll(e.nodes));
      assert i.(next := 0) == i;
    }

    /** The write of `next` into a record whose handle is older than everything pushed since. */
    method Link(k: nat, h: nat, next: nat)
      requires Valid() && k < |code| && h == InstrHandle(items, k) && next == NextOf(items, k)
      requires imlPool.Contents() == Unlinked(items, k + 1) + Image(items, k + 1)
      modifies imlPool.data
      ensures Valid() && imlPool.Contents() == Unlinked(items, k) + Image(items, k)
    {
      hide Unlinked, Image, LE, WordRecords;
      ghost var u1, rest := Unlinked(items, k + 1), Image(items, k + 1);
      LinkImage(items, k, u1, rest, h + OFFSETOF_NEXT, next);
      Patch(h + OFFSETOF_NEXT, LE(next, 4), u1 + rest, Unlinked(items, k) + Image(items, k));
    }

    /** A write into the pool through an old handle. */
    method Patch(at: nat, bytes: seq<byte>, ghost all: seq<byte>, ghost patched: seq<byte>)
      requires Valid() && imlPool.Contents() == all && at + |bytes| <= |all|
      requires all[..at] + bytes + all[at + |bytes|..] == patched
      modifies imlPool.data
      ensures Valid() && imlPool.Contents() == patched
    {
      assert |imlPool.Contents()| == imlPool.pos;
      imlPool.Store(at, bytes);
    }

    /** `imlgen_recurse`, on a byte position in the buffer. */
    method Recurse(pos: nat) returns (handle: nat)
      requires Valid() && pos % 4 == 0 && pos + 4 <= 4 * |code|
      requires imlPool.Contents() == Unlinked(items, pos / 4)
      modifies imlPool, imlPool.data, decoded.buf
      ensures Valid() && imlPool.initial == old(imlPool.initial)
      ensures imlPool.data == old(imlPool.data) || fresh(imlPool.data)
      ensures imlPool.Contents() == Unlinked(items, pos / 4) + Image(items, pos / 4)
      ensures handle == InstrHandle(items, pos / 4)
      ensures decoded.View() == old(decoded.View()) + Range(pos / 4, |code| - 1)
      decreases 4 * |code| - pos
    {
      hide Unlinked, Image, EmissionOf, InstrHandle, Items, CodeOk, ItemsOk, Members, SizesOk, ZeroTail, Amortised;
      var k := pos / 4;
      var i, h := DecodeAndPush(k);
      var next := i.next;
      if pos + 4 < 4 * |code| {
        assert (pos + 4) / 4 == k + 1;
        next := Recurse(pos + 4);
        decoded.SetBit(k, true);
      } else {
        LastImage(items, Unlinked(items, k + 1));
      }
      Link(k, h, next);
      var destAlreadyDecoded := decoded.GetBit(k);
      handle := h;
    }
  }

  /** `imlgen`: the pool ends as the linked records of the whole buffer, every word but the last is
      marked as decoded, and memory is linear in the number of words. */
  method Imlgen(words: seq<bv32>) returns (p: Program, entry: nat)
    requires CodeOk(words) && |words| > 0
    ensures p.Valid() && p.code == words
    ensures p.imlPool.Contents() == Final(Items(words))
    ensures entry == InstrHandle(Items(words), 0)
    ensures p.decoded.View() == Range(0, |words| - 1)
    ensures p.imlPool.pos <= MAX_PER_WORD * |words|
    ensures p.imlPool.data.Length <= 3 * MAX_PER_WORD * |words|
    ensures p.imlPool.copied <= 2 * (p.imlPool.data.Length - |words| * SIZEOF_INSTRUCTION)
  {
    p := new Program(words);
    assert Unlinked(p.items, 0) == [];
    entry := p.Recurse(0);
    FinalIsImage(Items(words));
    assert |p.imlPool.Contents()| == p.imlPool.pos;
    assert [] + Image(Items(words), 0) == Image(Items(words), 0);
  }
}
