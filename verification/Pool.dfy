/** The growable byte pool: stable handles, a zero tail and amortised growth. */
module Pools {

  const U32: nat := 0x1_0000_0000

  type byte = x: int | 0 <= x < 256

  function ZeroBytes(n: nat): (r: seq<byte>)
    ensures |r| == n
  {
    seq(n, _ => 0)
  }

  // ---- sizes ----

  /** The sizes of a pool, with three numbers the program does not keep: the size it was initial
      with, the bytes copied by reallocation so far and the highest position reached so far. */
  datatype Sizes = Sizes(alloc: nat, pos: nat, initial: nat, copied: nat, peak: nat)

  /** `pool_can_hold`, whose sum is taken modulo 2^32. */
  predicate CanHold(alloc: nat, pos: nat, size: nat) {
    alloc > (pos + size) % U32
  }

  /** The integer part of (alloc_size + size) * 1.5, whose sum is taken modulo 2^32 and whose product is
      not: a double holds it exactly. */
  function Grown(alloc: nat, size: nat): nat {
    (alloc + size) % U32 * 3 / 2
  }

  /** The values `newsize` can get. C leaves the conversion undefined when the product does not fit in a
      u32; it can then be any value. */
  predicate NewSize(alloc: nat, size: nat, n: nat) {
    n < U32 && (Grown(alloc, size) < U32 ==> n == Grown(alloc, size))
  }

  /** The number of bytes a push reserves: alloc_size, or data_size when that is 0. */
  function Reserve(dataSize: nat, allocSize: nat): nat {
    if allocSize == 0 then dataSize else allocSize
  }

  function Max(a: nat, b: nat): nat {
    if a < b then b else a
  }

  function PushSizes(s: Sizes, size: nat): Sizes {
    var pos := s.pos + size;
    if CanHold(s.alloc, s.pos, size)
    then s.(pos := pos, peak := Max(s.peak, pos))
    else s.(alloc := Grown(s.alloc, size), pos := pos, copied := s.copied + s.alloc, peak := Max(s.peak, pos))
  }

  function DrainSizes(s: Sizes): Sizes {
    s.(pos := 0)
  }

  /** What a push needs: a pool that grows gets a defined size and passes the program's assertion that it
      is larger, and the region reserved lies inside the buffer. */
  predicate PushFits(s: Sizes, size: nat) {
    && (!CanHold(s.alloc, s.pos, size) ==> s.alloc < Grown(s.alloc, size) < U32)
    && s.pos + size <= PushSizes(s, size).alloc
  }

  predicate SizesOk(s: Sizes) {
    && s.pos <= s.alloc < U32 && s.initial <= s.alloc
    // memory is linear in what was stored
    && s.pos <= s.peak && s.alloc <= Max(s.initial, 3 * s.peak)
  }

  /** Reallocation is amortised, and room is left, except in a pool too small to have any. */
  predicate Amortised(s: Sizes) {
    && (s.pos < s.alloc || s.pos == s.alloc <= 1)
    && s.initial <= s.alloc && s.copied <= 2 * (s.alloc - s.initial)
  }

  // ---- u32 arithmetic in growth ----

  lemma CutSum(alloc: nat, size: nat)
    requires alloc < U32 && size < U32
    ensures (alloc + size) % U32 == if alloc + size < U32 then alloc + size else alloc + size - U32
  {
  }

  /** Whether the sum alloc_size + size wraps in a push that grows the pool. */
  predicate GrowthWraps(s: Sizes, size: nat) {
    !CanHold(s.alloc, s.pos, size) && U32 <= s.alloc + size
  }

  /** The conversion to u32 is defined exactly while one and a half times the sum, wrapped or not, fits. */
  lemma GrowthDefinedIff(alloc: nat, size: nat)
    requires alloc < U32 && size < U32
    ensures Grown(alloc, size) < U32
            <==> 3 * (alloc + size) < if alloc + size < U32 then 2 * U32 else 5 * U32
  {
    CutSum(alloc, size);
  }

  /** When the conversion is defined the assertion `newsize > alloc_size` fails exactly for an empty push
      into a pool of size 0 or 1, or after a wrap that leaves too little of the sum. When it is not, the
      assertion can fail, and can hold in any pool smaller than the largest. */
  lemma GrowthAssertFailsIff(alloc: nat, size: nat)
    requires alloc < U32 && size < U32
    ensures Grown(alloc, size) < U32 ==>
              forall n: nat :: NewSize(alloc, size, n) ==>
                (!(n > alloc) <==> if alloc + size < U32 then size == 0 && alloc <= 1
                                   else alloc + 3 * size < 3 * U32 + 2)
    ensures Grown(alloc, size) >= U32 ==>
              && (exists n: nat :: NewSize(alloc, size, n) && !(n > alloc))
              && ((exists n: nat :: NewSize(alloc, size, n) && n > alloc) <==> alloc < U32 - 1)
  {
    CutSum(alloc, size);
    if Grown(alloc, size) >= U32 {
      assert NewSize(alloc, size, 0) && NewSize(alloc, size, U32 - 1);
    }
  }

  /** A passed assertion leaves room for the region reserved exactly when the sum did not wrap, or what is
      left of it is still large enough; with an undefined conversion, exactly when the region ends at
      most one byte above the old buffer. */
  lemma GrowthLeavesRoomIff(s: Sizes, size: nat)
    requires SizesOk(s) && size < U32 && !CanHold(s.alloc, s.pos, size)
    ensures Grown(s.alloc, size) < U32 ==>
              forall n: nat :: NewSize(s.alloc, size, n) && n > s.alloc ==>
                (s.pos + size <= n <==>
                  s.alloc + size < U32 || 2 * s.pos + 3 * U32 <= 3 * s.alloc + size)
    ensures Grown(s.alloc, size) >= U32 && s.alloc < U32 - 1 ==>
              ((forall n: nat :: NewSize(s.alloc, size, n) && n > s.alloc ==> s.pos + size <= n)
               <==> s.pos + size <= s.alloc + 1)
  {
    CutSum(s.alloc, size);
    if Grown(s.alloc, size) >= U32 && s.alloc < U32 - 1 {
      assert NewSize(s.alloc, size, s.alloc + 1);
    }
  }

  /** What a caller has to check before a push: that its region ends below 2^32, and that there is room or
      the growth step passes its assertion and makes room. */
  lemma PushFitsIff(s: Sizes, size: nat)
    requires SizesOk(s) && size < U32
    ensures PushFits(s, size) <==>
              && s.pos + size < U32
              && (s.pos + size < s.alloc ||
                  if s.alloc + size < U32
                  then 3 * (s.alloc + size) < 2 * U32 && !(size == 0 && s.alloc <= 1)
                  else 3 * (s.alloc + size) < 5 * U32 && 3 * U32 + 2 <= s.alloc + 3 * size
                       && 2 * s.pos + 3 * U32 <= 3 * s.alloc + size)
  {
    CutSum(s.alloc, size);
  }

  /** The u32 sum in `pool_can_hold` gives the wrong answer exactly when it wraps below alloc_size. */
  lemma CanHoldWrongIff(alloc: nat, pos: nat, size: nat)
    requires pos < U32 && size < U32 && alloc < U32
    ensures CanHold(alloc, pos, size) != (alloc > pos + size)
            <==> U32 <= pos + size < U32 + alloc
  {
  }

  // ---- what pushes keep ----

  lemma GrownBounds(alloc: nat, size: nat)
    requires alloc < U32 && size < U32
    ensures alloc + size < U32 ==> 3 * (alloc + size) - 1 <= 2 * Grown(alloc, size)
    ensures 2 * Grown(alloc, size) <= 3 * (alloc + size)
    ensures U32 <= alloc + size ==> 2 * Grown(alloc, size) <= 3 * (alloc - 1)
  {
    CutSum(alloc, size);
  }

  /** Every push that fits keeps the bound on memory. */
  lemma PushKeepsSizesOk(s: Sizes, size: nat)
    requires SizesOk(s) && PushFits(s, size)
    ensures SizesOk(PushSizes(s, size))
  {
    hide Grown;
    if size < U32 {
      GrownBounds(s.alloc, size);
    }
  }

  /** A growth step pays for the bytes it copies exactly when the sum does not wrap. */
  lemma GrowthPaysIff(s: Sizes, size: nat)
    requires SizesOk(s) && Amortised(s) && PushFits(s, size) && !CanHold(s.alloc, s.pos, size)
    ensures s.alloc <= 2 * (PushSizes(s, size).alloc - s.alloc) <==> s.alloc + size < U32
  {
    hide Grown;
    GrownBounds(s.alloc, size);
  }

  /** So a push keeps the bound on copying unless it wraps. */
  lemma PushKeepsAmortised(s: Sizes, size: nat)
    requires SizesOk(s) && Amortised(s) && PushFits(s, size) && !GrowthWraps(s, size)
    ensures Amortised(PushSizes(s, size))
  {
    if !CanHold(s.alloc, s.pos, size) {
      GrowthPaysIff(s, size);
      CutSum(s.alloc, size);
    }
  }

  /** A wrapped growth that fits: 0.9 * 2^32 bytes grow to 0.93 * 2^32, and all of them are copied. */
  lemma WrappedGrowthCopiesTooMuch()
    ensures var s := PushSizes(Sizes(0xE600_0000, 0, 0xE600_0000, 0, 0), 0x3000_0000);
            && PushFits(Sizes(0xE600_0000, 0, 0xE600_0000, 0, 0), 0x3000_0000) && SizesOk(s) && Amortised(s)
            && PushFits(s, 0xB800_0000) && GrowthWraps(s, 0xB800_0000)
            && !Amortised(PushSizes(s, 0xB800_0000))
  {
  }

  datatype Op = Push(size: nat) | Drain

  function RunSizes(s: Sizes, ops: seq<Op>): Sizes {
    if ops == [] then s
    else
      var s' := RunSizes(s, ops[..|ops| - 1]);
      match ops[|ops| - 1]
      case Push(size) => PushSizes(s', size)
      case Drain => DrainSizes(s')
  }

  ghost predicate RunFits(s: Sizes, ops: seq<Op>) {
    forall k :: 0 <= k < |ops| && ops[k].Push? ==> PushFits(RunSizes(s, ops[..k]), ops[k].size)
  }

  ghost predicate RunWraps(s: Sizes, ops: seq<Op>) {
    exists k :: 0 <= k < |ops| && ops[k].Push? && GrowthWraps(RunSizes(s, ops[..k]), ops[k].size)
  }

  lemma RunPrefix(s: Sizes, ops: seq<Op>)
    requires ops != [] && RunFits(s, ops)
    ensures RunFits(s, ops[..|ops| - 1])
    ensures RunWraps(s, ops[..|ops| - 1]) ==> RunWraps(s, ops)
  {
    var front := ops[..|ops| - 1];
    assert forall k :: 0 <= k < |front| ==> front[k] == ops[k] && front[..k] == ops[..k];
    assert forall k :: 0 <= k < |front| ==> RunSizes(s, front[..k]) == RunSizes(s, ops[..k]);
    if RunWraps(s, front) {
      var k :| 0 <= k < |front| && front[k].Push? && GrowthWraps(RunSizes(s, front[..k]), front[k].size);
      assert GrowthWraps(RunSizes(s, ops[..k]), ops[k].size);
    }
  }

  /** In every state reachable from a freshly opened pool the buffer is at most three times the highest
      position used, or its first size; and as long as no growth has wrapped, the bytes ever copied are
      at most twice the growth of the buffer. */
  lemma {:induction false} RunAmortised(initial: nat, ops: seq<Op>)
    requires initial < U32
    requires RunFits(Sizes(initial, 0, initial, 0, 0), ops)
    ensures var start := Sizes(initial, 0, initial, 0, 0);
            var s := RunSizes(start, ops);
            && SizesOk(s) && s.initial == initial && s.alloc <= Max(initial, 3 * s.peak)
            && (!RunWraps(start, ops) ==> Amortised(s) && s.copied <= 2 * (s.alloc - initial))
  {
    if ops == [] {
    } else {
      var start, last := Sizes(initial, 0, initial, 0, 0), |ops| - 1;
      RunPrefix(start, ops);
      RunAmortised(initial, ops[..last]);
      if ops[last].Push? {
        PushKeepsSizesOk(RunSizes(start, ops[..last]), ops[last].size);
        if !RunWraps(start, ops) {
          PushKeepsAmortised(RunSizes(start, ops[..last]), ops[last].size);
        }
      }
    }
  }

  // ---- contents ----

  datatype Request = Request(bytes: seq<byte>, allocSize: nat)

  predicate RequestOk(q: Request) {
    |q.bytes| <= Reserve(|q.bytes|, q.allocSize)
  }

  /** What one push adds: its bytes, then zeros up to the size it reserves. */
  function Region(q: Request): (r: seq<byte>)
    requires RequestOk(q)
    ensures |r| == Reserve(|q.bytes|, q.allocSize)
  {
    q.bytes + ZeroBytes(Reserve(|q.bytes|, q.allocSize) - |q.bytes|)
  }

  /** The contents of a pool after a run of pushes. */
  function Pushed(c: seq<byte>, qs: seq<Request>): seq<byte>
    requires forall q :: q in qs ==> RequestOk(q)
    decreases qs
  {
    if qs == [] then c else Pushed(c + Region(qs[0]), qs[1..])
  }

  /** The handle of the k-th push of the run: the position before it. */
  function PushHandle(c: seq<byte>, qs: seq<Request>, k: nat): nat
    requires k <= |qs|
    requires forall q :: q in qs ==> RequestOk(q)
  {
    |Pushed(c, qs[..k])|
  }

  lemma {:induction false} PushedExtends(c: seq<byte>, qs: seq<Request>)
    requires forall q :: q in qs ==> RequestOk(q)
    ensures c <= Pushed(c, qs)
    decreases qs
  {
    if qs == [] {
    } else {
      PushedExtends(c + Region(qs[0]), qs[1..]);
    }
  }

  lemma {:induction false} PushedSplit(c: seq<byte>, qs: seq<Request>, k: nat)
    requires k <= |qs|
    requires forall q :: q in qs ==> RequestOk(q)
    ensures Pushed(c, qs) == Pushed(Pushed(c, qs[..k]), qs[k..])
    decreases k
  {
    if k == 0 {
      assert qs[0..] == qs;
    } else {
      PushedSplit(c + Region(qs[0]), qs[1..], k - 1);
      assert qs[..k][1..] == qs[1..][..k - 1];
      assert qs[1..][k - 1..] == qs[k..];
    }
  }

  lemma PushedOne(c: seq<byte>, qs: seq<Request>, k: nat)
    requires k < |qs|
    requires forall q :: q in qs ==> RequestOk(q)
    ensures Pushed(c, qs[..k + 1]) == Pushed(c, qs[..k]) + Region(qs[k])
  {
    PushedSplit(c, qs[..k + 1], k);
    assert qs[..k + 1][..k] == qs[..k];
    assert qs[..k + 1][k..] == [qs[k]];
    assert [qs[k]][1..] == [];
  }

  /** The next handle is alloc_size further, or data_size when alloc_size is 0. */
  lemma NextHandle(c: seq<byte>, qs: seq<Request>, k: nat)
    requires k < |qs|
    requires forall q :: q in qs ==> RequestOk(q)
    ensures PushHandle(c, qs, k + 1)
            == PushHandle(c, qs, k) + if qs[k].allocSize == 0 then |qs[k].bytes| else qs[k].allocSize
  {
    PushedOne(c, qs, k);
  }

  lemma ReadsBack(before: seq<byte>, region: seq<byte>, all: seq<byte>, n: nat)
    requires before + region <= all && n <= |region|
    ensures all[|before|..|before| + n] == region[..n]
  {
    assert all[|before|..|before| + n] == (before + region)[|before|..|before| + n];
  }

  /** Handles are stable: after any later pushes every handle still reads back its region, and the
      regions tile the pool from its first position to its last. */
  lemma HandlesStable(c: seq<byte>, qs: seq<Request>, k: nat)
    requires k < |qs|
    requires forall q :: q in qs ==> RequestOk(q)
    ensures var h := PushHandle(c, qs, k);
            && PushHandle(c, qs, k + 1) == h + |Region(qs[k])| <= |Pushed(c, qs)|
            && Pushed(c, qs)[h..h + |Region(qs[k])|] == Region(qs[k])
            && Pushed(c, qs)[h..h + |qs[k].bytes|] == qs[k].bytes
    ensures PushHandle(c, qs, 0) == |c| && PushHandle(c, qs, |qs|) == |Pushed(c, qs)|
  {
    assert qs[..|qs|] == qs;
    PushedOne(c, qs, k);
    PushedSplit(c, qs, k + 1);
    PushedExtends(Pushed(c, qs[..k + 1]), qs[k + 1..]);
    var r := Region(qs[k]);
    ReadsBack(Pushed(c, qs[..k]), r, Pushed(c, qs), |r|);
    ReadsBack(Pushed(c, qs[..k]), r, Pushed(c, qs), |qs[k].bytes|);
    assert r[..|r|] == r;
  }

  // ---- the pool ----

  /** A buffer with bytes written over a part of it. */
  function Written(buf: seq<byte>, at: nat, bytes: seq<byte>): (r: seq<byte>)
    requires at + |bytes| <= |buf|
    ensures |r| == |buf|
  {
    buf[..at] + bytes + buf[at + |bytes|..]
  }

  method MemCpy(dst: array<byte>, at: nat, bytes: seq<byte>)
    requires at + |bytes| <= dst.Length
    modifies dst
    ensures dst[..] == Written(old(dst[..]), at, bytes)
  {
    forall i | 0 <= i < |bytes| {
      dst[at + i] := bytes[i];
    }
  }

  predicate ZeroTail(buf: seq<byte>, pos: nat) {
    forall i :: pos <= i < |buf| ==> buf[i] == 0
  }

  /** The bytes of a request that do not fit in the size it reserves. */
  function Surplus(bytes: seq<byte>, size: nat): seq<byte> {
    if |bytes| <= size then [] else bytes[size..]
  }

  /** What a push leaves in a buffer that was zero from pos on: the tail stays zero exactly when the data
      beyond the size reserved is zero. */
  lemma PushedTailIff(buf: seq<byte>, extra: nat, pos: nat, bytes: seq<byte>, size: nat)
    requires ZeroTail(buf, pos) && pos <= |buf|
    requires pos + |bytes| <= |buf| + extra && pos + size <= |buf| + extra
    ensures ZeroTail(Written(buf + ZeroBytes(extra), pos, bytes), pos + size) <==> ZeroTail(Surplus(bytes, size), 0)
  {
    var after := Written(buf + ZeroBytes(extra), pos, bytes);
    forall i | pos + size <= i < |after|
      ensures after[i] == if i < pos + |bytes| then bytes[i - pos] else 0
    {
    }
    forall i | 0 <= i < |Surplus(bytes, size)|
      ensures Surplus(bytes, size)[i] == after[pos + size + i]
    {
    }
    if ZeroTail(Surplus(bytes, size), 0) {
      forall i | pos + size <= i < |after|
        ensures after[i] == 0
      {
        if i < pos + |bytes| {
          assert Surplus(bytes, size)[i - pos - size] == bytes[i - pos];
        }
      }
    }
  }

  lemma PushedContents(buf: seq<byte>, extra: nat, pos: nat, bytes: seq<byte>, size: nat)
    requires ZeroTail(buf, pos) && pos <= |buf|
    requires |bytes| <= size && pos + size <= |buf| + extra
    ensures Written(buf + ZeroBytes(extra), pos, bytes)[..pos + size]
            == buf[..pos] + (bytes + ZeroBytes(size - |bytes|))
  {
  }

  /** The sizes of a run of pushes. */
  function PushOps(qs: seq<Request>): (r: seq<Op>)
    ensures |r| == |qs|
  {
    seq(|qs|, k requires 0 <= k < |qs| => Op.Push(Reserve(|qs[k].bytes|, qs[k].allocSize)))
  }

  /** Request k of a run fits when all of them do, and adds its region and its size. */
  lemma NextPush(s: Sizes, c: seq<byte>, qs: seq<Request>, k: nat)
    requires k < |qs| && RunFits(s, PushOps(qs))
    requires forall q :: q in qs ==> RequestOk(q)
    ensures var size, before := Reserve(|qs[k].bytes|, qs[k].allocSize), RunSizes(s, PushOps(qs)[..k]);
            && RequestOk(qs[k]) && |qs[k].bytes| <= size && PushFits(before, size)
            && before.pos + size <= PushSizes(before, size).alloc
            && RunSizes(s, PushOps(qs)[..k + 1]) == PushSizes(before, size)
    ensures PushHandle(c, qs, k) == |Pushed(c, qs[..k])|
    ensures Pushed(c, qs[..k + 1]) == Pushed(c, qs[..k]) + Region(qs[k])
  {
    hide PushSizes, Region;
    assert RequestOk(qs[k]);
    assert PushOps(qs)[..k + 1][..k] == PushOps(qs)[..k];
    assert PushOps(qs)[k].Push?;
    PushedOne(c, qs, k);
  }

  /** The first k requests of a run have been pushed from sizes s and contents c. */
  ghost predicate PushedSoFar(s: Sizes, c: seq<byte>, qs: seq<Request>, k: nat,
                              sizes: Sizes, contents: seq<byte>, handles: seq<nat>)
    requires k <= |qs| && forall q :: q in qs ==> RequestOk(q)
  {
    && sizes == RunSizes(s, PushOps(qs)[..k]) && contents == Pushed(c, qs[..k]) && |handles| == k
    && forall j :: 0 <= j < k ==> handles[j] == PushHandle(c, qs, j)
  }

  lemma PushedOneMore(s: Sizes, c: seq<byte>, qs: seq<Request>, k: nat,
                      sizes: Sizes, contents: seq<byte>, handles: seq<nat>)
    requires k < |qs| && (forall q :: q in qs ==> RequestOk(q)) && RunFits(s, PushOps(qs))
    requires PushedSoFar(s, c, qs, k, sizes, contents, handles)
    ensures RequestOk(qs[k])
    ensures var size := Reserve(|qs[k].bytes|, qs[k].allocSize);
            && PushFits(sizes, size)
            && PushedSoFar(s, c, qs, k + 1, PushSizes(sizes, size), contents + Region(qs[k]), handles + [|contents|])
  {
    hide PushSizes, Region, PushFits, RunFits, RunSizes, PushOps, Pushed, PushHandle, RequestOk;
    NextPush(s, c, qs, k);
  }

  class Pool {
    var data: array<byte>
    var pos: nat
    ghost var initial: nat
    ghost var copied: nat
    ghost var peak: nat

    ghost function View(): Sizes
      reads this
    {
      Sizes(data.Length, pos, initial, copied, peak)
    }

    /** Every byte at or above pos is zero. */
    ghost predicate Valid()
      reads this, data
    {
      SizesOk(View()) && ZeroTail(data[..], pos)
    }

    ghost function Contents(): (c: seq<byte>)
      reads this, data
      requires pos <= data.Length
    {
      data[..pos]
    }

    constructor Open(initSize: nat)
      requires initSize < U32
      ensures Valid() && fresh(data)
      ensures View() == Sizes(initSize, 0, initSize, 0, 0)
      ensures Contents() == []
    {
      data := new byte[initSize](_ => 0);
      pos, initial, copied, peak := 0, initSize, 0, 0;
    }

    /** The reallocation inside `pool_push`: a larger zeroed buffer takes over all the old bytes. */
    method MakeRoom(size: nat)
      requires SizesOk(View()) && PushFits(View(), size)
      modifies this`data, this`copied
      ensures data == old(data) || fresh(data)
      ensures View().(pos := pos + size, peak := Max(peak, pos + size)) == PushSizes(old(View()), size)
      ensures pos + size <= data.Length && old(data.Length) <= data.Length
      ensures data[..] == old(data[..]) + ZeroBytes(data.Length - old(data.Length))
    {
      if !(data.Length > (pos + size) % U32) {
        var newSize := (data.Length + size) % U32 * 3 / 2;
        var newBuf := new byte[newSize](_ => 0);
        forall i | 0 <= i < data.Length {
          newBuf[i] := data[i];
        }
        assert newBuf[..] == data[..] + ZeroBytes(newSize - data.Length);
        copied := copied + data.Length;
        data := newBuf;
      }
    }

    /** The copy that ends `pool_push`. */
    method Place(bytes: seq<byte>, size: nat)
      requires pos + |bytes| <= data.Length
      modifies this`pos, this`peak, data
      ensures pos == old(pos) + size && peak == Max(old(peak), pos)
      ensures data[..] == Written(old(data[..]), old(pos), bytes)
    {
      MemCpy(data, pos, bytes);
      pos := pos + size;
      peak := Max(peak, pos);
    }

    /** `pool_push` with the size to reserve: nothing but the bytes pushed changes. */
    method PushInto(bytes: seq<byte>, size: nat) returns (handle: nat)
      requires SizesOk(View()) && PushFits(View(), size)
      requires pos + |bytes| <= PushSizes(View(), size).alloc
      modifies this, data
      ensures SizesOk(View()) && (data == old(data) || fresh(data)) && handle == old(pos)
      ensures View() == PushSizes(old(View()), size) && pos == old(pos) + size
      ensures old(pos) + |bytes| <= data.Length && old(data.Length) <= data.Length
      ensures data[..] == Written(old(data[..]) + ZeroBytes(data.Length - old(data.Length)), old(pos), bytes)
    {
      hide CanHold, Grown, PushFits, PushSizes, SizesOk, Written, ZeroBytes;
      PushKeepsSizesOk(View(), size);
      MakeRoom(size);
      handle := pos;
      Place(bytes, size);
    }

    /** `bytes` is the data_size bytes of data; they may be more than the size reserved, as long as the
        copy stays inside the buffer. */
    method Push(bytes: seq<byte>, allocSize: nat) returns (handle: nat)
      requires SizesOk(View()) && PushFits(View(), Reserve(|bytes|, allocSize))
      requires pos + |bytes| <= PushSizes(View(), Reserve(|bytes|, allocSize)).alloc
      modifies this, data
      ensures SizesOk(View()) && (data == old(data) || fresh(data)) && handle == old(pos)
      ensures View() == PushSizes(old(View()), Reserve(|bytes|, allocSize))
      ensures old(pos) + |bytes| <= data.Length && old(data.Length) <= data.Length
      ensures data[..] == Written(old(data[..]) + ZeroBytes(data.Length - old(data.Length)), old(pos), bytes)
      ensures old(Valid()) ==> (Valid() <==> ZeroTail(Surplus(bytes, Reserve(|bytes|, allocSize)), 0))
      ensures old(Valid()) && RequestOk(Request(bytes, allocSize)) ==>
                Valid() && Contents() == old(Contents()) + Region(Request(bytes, allocSize))
    {
      hide CanHold, Grown, PushFits, PushSizes, Written, ZeroTail, Surplus, ZeroBytes;
      ghost var was := data[..];
      var size := if allocSize == 0 then |bytes| else allocSize;
      handle := PushInto(bytes, size);
      if ZeroTail(was, handle) {
        TailAndContents(was, handle, bytes, size);
      }
    }

    lemma TailAndContents(was: seq<byte>, handle: nat, bytes: seq<byte>, size: nat)
      requires handle <= |was| <= data.Length && ZeroTail(was, handle)
      requires handle + |bytes| <= data.Length && pos == handle + size <= data.Length
      requires data[..] == Written(was + ZeroBytes(data.Length - |was|), handle, bytes)
      ensures ZeroTail(data[..], pos) <==> ZeroTail(Surplus(bytes, size), 0)
      ensures |bytes| <= size ==>
                ZeroTail(data[..], pos) && data[..pos] == was[..handle] + (bytes + ZeroBytes(size - |bytes|))
    {
      hide Written;
      var extra := data.Length - |was|;
      PushedTailIff(was, extra, handle, bytes, size);
      if |bytes| <= size {
        PushedContents(was, extra, handle, bytes, size);
        assert data[..pos] == data[..][..pos];
      }
    }

    method PushRequest(q: Request) returns (handle: nat)
      requires Valid() && RequestOk(q) && PushFits(View(), Reserve(|q.bytes|, q.allocSize))
      modifies this, data
      ensures Valid() && (data == old(data) || fresh(data))
      ensures View() == PushSizes(old(View()), Reserve(|q.bytes|, q.allocSize))
      ensures Contents() == old(Contents()) + Region(q) && handle == |old(Contents())|
    {
      assert |Contents()| == pos;
      hide PushFits, SizesOk, Written, ZeroTail, Surplus, Region;
      assert q == Request(q.bytes, q.allocSize);
      handle := Push(q.bytes, q.allocSize);
    }

    /** A run of pushes. */
    method PushAll(qs: seq<Request>) returns (handles: seq<nat>)
      requires Valid() && RunFits(View(), PushOps(qs))
      requires forall q :: q in qs ==> RequestOk(q)
      modifies this, data
      ensures Valid() && (data == old(data) || fresh(data))
      ensures View() == RunSizes(old(View()), PushOps(qs))
      ensures Contents() == Pushed(old(Contents()), qs)
      ensures |handles| == |qs|
      ensures forall k :: 0 <= k < |qs| ==> handles[k] == PushHandle(old(Contents()), qs, k)
    {
      ghost var c, s := Contents(), View();
      handles := [];
      for k := 0 to |qs|
        invariant Valid() && (data == old(data) || fresh(data))
        invariant PushedSoFar(s, c, qs, k, View(), Contents(), handles)
      {
        hide PushFits, PushSizes, Region, RunFits, RequestOk, PushedSoFar, SizesOk, ZeroTail;
        PushedOneMore(s, c, qs, k, View(), Contents(), handles);
        var h := PushRequest(qs[k]);
        handles := handles + [h];
      }
      assert qs[..|qs|] == qs && PushOps(qs)[..|qs|] == PushOps(qs);
    }

    /** A write through the pointer that `pool_getdata` gives for a handle. */
    method Store(handle: nat, bytes: seq<byte>)
      requires Valid() && handle + |bytes| <= pos
      modifies data
      ensures Valid()
      ensures Contents() == old(Contents()[..handle]) + bytes + old(Contents()[handle + |bytes|..])
    {
      MemCpy(data, handle, bytes);
      assert data[..pos] == old(data[..handle]) + bytes + old(data[handle + |bytes|..pos]);
      assert forall i :: pos <= i < data.Length ==> data[i] == data[..][i] == old(data[i]);
    }

    /** The buffer becomes all zero, whatever it held above its position. */
    method Drain()
      requires SizesOk(View())
      modifies this, data
      ensures Valid() && data == old(data)
      ensures View() == DrainSizes(old(View())) && Contents() == []
    {
      forall i | 0 <= i < data.Length {
        data[i] := 0;
      }
      pos := 0;
    }
  }
}
