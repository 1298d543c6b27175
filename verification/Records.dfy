/** Pushing whole records into the pool. */
module Records {
  import opened Pools
  import opened Iml
  import opened Layout
  import opened TreePool

  /** Below this position no push of a record can overflow a u32. */
  const LIMIT: nat := 0xA000_0000

  lemma RecordFits(s: Sizes, size: nat)
    requires SizesOk(s) && 0 < size <= SIZEOF_INSTRUCTION && s.pos + size <= LIMIT
    ensures PushFits(s, size) && !GrowthWraps(s, size)
  {
    PushFitsIff(s, size);
  }

  lemma Growing(s: Sizes, size: nat)
    requires SizesOk(s) && Amortised(s) && 0 < size <= SIZEOF_INSTRUCTION && s.pos + size <= LIMIT
    ensures PushFits(s, size) && s.pos + size <= PushSizes(s, size).alloc && Amortised(PushSizes(s, size))
    ensures s.peak == s.pos ==> PushSizes(s, size).peak == PushSizes(s, size).pos == s.pos + size
    ensures PushSizes(s, size).initial == s.initial
  {
    RecordFits(s, size);
    PushKeepsAmortised(s, size);
  }

  /** The bytes of a list of expression records. */
  function SerAll(nodes: seq<Expression>): (r: seq<byte>)
    requires NodesOk(nodes)
    ensures |r| == SIZEOF_EXPRESSION * |nodes|
  {
    if nodes == [] then [] else SerAll(nodes[..|nodes| - 1]) + SerExpression(nodes[|nodes| - 1])
  }

  lemma SerAllPush(nodes: seq<Expression>, e: Expression)
    requires NodesOk(nodes) && ExpressionOk(e)
    ensures NodesOk(nodes + [e])
    ensures SerAll(nodes + [e]) == SerAll(nodes) + SerExpression(e)
  {
    assert (nodes + [e])[..|nodes|] == nodes;
  }

  /** The pool during a run that is never drained: it was opened with `initial` bytes. */
  ghost predicate Ready(pool: Pool, initial: nat)
    reads pool, pool.data
  {
    pool.Valid() && Amortised(pool.View()) && pool.peak == pool.pos && pool.initial == initial
  }

  /** A push of a whole record, with no room reserved beyond it, after `before` and `soFar`. */
  method PushRecord(pool: Pool, bytes: seq<byte>, ghost initial: nat, ghost before: seq<byte>, ghost soFar: seq<byte>)
    returns (handle: nat)
    requires Ready(pool, initial) && pool.Contents() == before + soFar
    requires 0 < |bytes| <= SIZEOF_INSTRUCTION && pool.pos + |bytes| <= LIMIT
    modifies pool, pool.data
    ensures Ready(pool, initial) && (pool.data == old(pool.data) || fresh(pool.data))
    ensures pool.Contents() == before + (soFar + bytes) && handle == |before| + |soFar|
  {
    assert Region(Request(bytes, 0)) == bytes;
    assert |pool.Contents()| == pool.pos;
    hide PushFits, PushSizes, SizesOk, Amortised, GrowthWraps, Written, ZeroTail, Surplus, ZeroBytes;
    Growing(pool.View(), |bytes|);
    handle := pool.Push(bytes, 0);
    assert before + soFar + bytes == before + (soFar + bytes);
  }

  /** The pool holds `before` and then the records of `nodes`. */
  ghost predicate Holding(pool: Pool, initial: nat, before: seq<byte>, nodes: seq<Expression>)
    reads pool, pool.data
  {
    Ready(pool, initial) && NodesOk(nodes) && pool.Contents() == before + SerAll(nodes)
  }

  method PushExpression(pool: Pool, e: Expression, ghost initial: nat, ghost before: seq<byte>,
                        ghost nodes: seq<Expression>)
    returns (handle: nat)
    requires Holding(pool, initial, before, nodes)
    requires ExpressionOk(e) && pool.pos + SIZEOF_EXPRESSION <= LIMIT
    modifies pool, pool.data
    ensures Holding(pool, initial, before, nodes + [e]) && (pool.data == old(pool.data) || fresh(pool.data))
    ensures handle == HandleAt(|before|, |nodes|)
  {
    SerAllPush(nodes, e);
    handle := PushRecord(pool, SerExpression(e), initial, before, SerAll(nodes));
  }

  /** The compound constructor pushes its left child, then its right child. */
  method NewCompound(pool: Pool, left: Expression, op: MathOp, right: Expression,
                     ghost initial: nat, ghost before: seq<byte>, ghost nodes: seq<Expression>)
    returns (e: Expression)
    requires Holding(pool, initial, before, nodes)
    requires ExpressionOk(left) && ExpressionOk(right)
    requires HandleAt(|before|, |nodes| + 2) <= LIMIT
    modifies pool, pool.data
    ensures Holding(pool, initial, before, nodes + [left, right]) && (pool.data == old(pool.data) || fresh(pool.data))
    ensures e == Compound(op, false, false, HandleAt(|before|, |nodes|), HandleAt(|before|, |nodes| + 1))
    ensures ExpressionOk(e)
  {
    var l := PushExpression(pool, left, initial, before, nodes);
    var r := PushExpression(pool, right, initial, before, nodes + [left]);
    assert nodes + [left] + [right] == nodes + [left, right];
    assert Pow256(4) == U32;
    e := Compound(op, false, false, l, r);
  }
}
