/** The register allocator: a table of claimed x86 registers, scanned for the first match or the
    first free slot. */
module RegAlloc {

  type u8 = x: int | 0 <= x < 256

  /** Slots the scan looks at, and slots in the table. */
  const X86_GP_COUNT: nat := 14
  const TABLE_SIZE: nat := 16
  const RSP: nat := 4
  const RBP: nat := 5

  type Table = t: seq<u8> | |t| == TABLE_SIZE witness [0, 0, 0, 0, 0, 0, 0, 0, 0, 0, 0, 0, 0, 0, 0, 0]

  datatype State = State(taken: Table, full: bool)

  /** The statically initialised state: RSP and RBP are reserved. */
  const STATIC: State := State([0, 0, 0, 0, 0xFF, 0xFF, 0, 0, 0, 0, 0, 0, 0, 0, 0, 0], false)

  const CLEARED: State := State([0, 0, 0, 0, 0, 0, 0, 0, 0, 0, 0, 0, 0, 0, 0, 0], false)

  datatype Out = Slot(index: nat) | Spill | Done

  // ---- the program as a step function ----

  /** The first scanned slot at or after i that holds v or is free; X86_GP_COUNT if there is none. */
  function Scan(t: Table, v: u8, i: nat): (r: nat)
    requires i <= X86_GP_COUNT
    ensures i <= r <= X86_GP_COUNT
    ensures forall j :: i <= j < r ==> t[j] != v && t[j] != 0
    ensures r < X86_GP_COUNT ==> t[r] == v || t[r] == 0
    decreases X86_GP_COUNT - i
  {
    if i == X86_GP_COUNT || t[i] == v || t[i] == 0 then i else Scan(t, v, i + 1)
  }

  /** The special cases for X29 and SP once no slot is left. */
  function SpecialCase(t: Table, id: u8, v: u8): Table {
    if id == 29 then t[RBP := v] else if id == 31 then t[RSP := v] else t
  }

  function AllocWith(s: State, id: u8, special: bool): (State, Out) {
    if s.full then (s, Spill)
    else
      var v: u8 := (id + 1) % 256;
      var i := Scan(s.taken, v, 0);
      if i < X86_GP_COUNT then (State(s.taken[i := v], false), Slot(i))
      else (State(if special then SpecialCase(s.taken, id, v) else s.taken, true), Spill)
  }

  function Alloc(s: State, id: u8): (State, Out) {
    AllocWith(s, id, true)
  }

  datatype Op = Request(id: u8) | Reset

  function Step(s: State, op: Op, special: bool): (State, Out) {
    match op
    case Request(id) => AllocWith(s, id, special)
    case Reset => (CLEARED, Done)
  }

  function Outputs(s: State, ops: seq<Op>, special: bool): (r: seq<Out>)
    ensures |r| == |ops|
    decreases ops
  {
    if ops == [] then []
    else
      var next := Step(s, ops[0], special);
      [next.1] + Outputs(next.0, ops[1..], special)
  }

  // ---- the table in place ----

  class Allocator {
    var taken: array<u8>
    var full: bool

    ghost predicate Valid()
      reads this
    {
      taken.Length == TABLE_SIZE
    }

    ghost function View(): State
      reads this, taken
      requires Valid()
    {
      State(taken[..], full)
    }

    constructor ()
      ensures Valid() && fresh(taken) && View() == STATIC
      ensures taken[..] == [0, 0, 0, 0, 0xFF, 0xFF, 0, 0, 0, 0, 0, 0, 0, 0, 0, 0] && !full
    {
      taken := new u8[16][0, 0, 0, 0, 0xFF, 0xFF, 0, 0, 0, 0, 0, 0, 0, 0, 0, 0];
      full := false;
    }

    /** The loop over the table: the first match or the first free slot. */
    method ScanTable(v: u8) returns (i: nat)
      requires Valid()
      ensures i == Scan(taken[..], v, 0)
    {
      i := 0;
      while i < X86_GP_COUNT && taken[i] != v && taken[i] != 0
        invariant i <= X86_GP_COUNT && Scan(taken[..], v, 0) == Scan(taken[..], v, i)
      {
        i := i + 1;
      }
    }

    /** Returns an x86 register number, or -1 to spill. */
    method RegAlloc(id: u8) returns (slot: int)
      requires Valid()
      modifies this`full, taken
      ensures Valid()
      ensures View() == Alloc(old(View()), id).0
      ensures slot == match Alloc(old(View()), id).1 case Slot(i) => i case _ => -1
    {
      hide Scan;
      if full {
        return -1;
      }
      var v: u8 := (id + 1) % 256;
      var i := ScanTable(v);
      if i < X86_GP_COUNT {
        if taken[i] == 0 {
          taken[i] := v;
        }
        assert taken[..] == old(taken[..])[i := v];
        return i;
      }
      if id == 29 {
        taken[RBP] := v;
      } else if id == 31 {
        taken[RSP] := v;
      }
      assert taken[..] == SpecialCase(old(taken[..]), id, v);
      full := true;
      slot := -1;
    }

    method RegReset()
      requires Valid()
      modifies this`full, taken
      ensures Valid() && View() == CLEARED
      ensures (forall i :: 0 <= i < 16 ==> taken[i] == 0) && !full
    {
      forall i | 0 <= i < taken.Length {
        taken[i] := 0;
      }
      assert taken[..] == CLEARED.taken;
      full := false;
    }
  }

  // ---- the special-case writes are unobservable ----

  lemma {:induction false} SpecialWritesHiddenFrom(s: State, t: State, ops: seq<Op>)
    requires s == t || (s.full && t.full)
    ensures Outputs(s, ops, true) == Outputs(t, ops, false)
    decreases ops
  {
    if ops == [] {
    } else {
      SpecialWritesHiddenFrom(Step(s, ops[0], true).0, Step(t, ops[0], false).0, ops[1..]);
    }
  }

  /** With and without the X29 and SP writes every run of requests and resets, whatever the ids,
      returns the same results. */
  lemma SpecialWritesHidden(s: State, ops: seq<Op>)
    ensures Outputs(s, ops, true) == Outputs(s, ops, false)
  {
    SpecialWritesHiddenFrom(s, s, ops);
  }

  // ---- the list of ids seen ----

  /** The allocator as a list: the ids seen so far, in order, and whether RSP and RBP are reserved. */
  datatype Seen = Seen(ids: seq<u8>, reserved: bool, full: bool)

  function Capacity(reserved: bool): nat {
    if reserved then X86_GP_COUNT - 2 else X86_GP_COUNT
  }

  /** The k-th scanned slot that is not reserved. */
  function NthSlot(reserved: bool, k: nat): nat {
    if reserved && k >= RSP then k + 2 else k
  }

  function IndexOf(ids: seq<u8>, id: u8): (k: nat)
    requires id in ids
    ensures k < |ids| && ids[k] == id
  {
    if ids[0] == id then 0 else 1 + IndexOf(ids[1..], id)
  }

  function SeenStep(a: Seen, op: Op): (Seen, Out)
    requires |a.ids| <= Capacity(a.reserved)
  {
    match op
    case Reset => (Seen([], false, false), Done)
    case Request(id) =>
      if a.full then (a, Spill)
      else if id in a.ids then (a, Slot(NthSlot(a.reserved, IndexOf(a.ids, id))))
      else if |a.ids| < Capacity(a.reserved) then (a.(ids := a.ids + [id]), Slot(NthSlot(a.reserved, |a.ids|)))
      else (a.(full := true), Spill)
  }

  function SeenOutputs(a: Seen, ops: seq<Op>): (r: seq<Out>)
    requires |a.ids| <= Capacity(a.reserved)
    ensures |r| == |ops|
    decreases ops
  {
    if ops == [] then []
    else
      var next := SeenStep(a, ops[0]);
      [next.1] + SeenOutputs(next.0, ops[1..])
  }

  /** The ids whose mark is neither that of a free slot (0) nor that of a reservation (0xFF). */
  predicate Plain(id: u8) {
    id <= 253
  }

  ghost predicate Distinct(ids: seq<u8>) {
    forall j, k :: 0 <= j < k < |ids| ==> ids[j] != ids[k]
  }

  /** The hidden invariant of the scan: the ids seen sit in the first slots, once each, and every
      slot after them is free. */
  ghost predicate Represents(s: State, a: Seen) {
    && |a.ids| <= Capacity(a.reserved) && s.full == a.full
    && (!s.full ==>
          && (a.reserved ==> s.taken[RSP] == 0xFF && s.taken[RBP] == 0xFF)
          && Distinct(a.ids)
          && (forall k :: 0 <= k < |a.ids| ==> Plain(a.ids[k]) && s.taken[NthSlot(a.reserved, k)] == a.ids[k] + 1)
          && (forall k :: |a.ids| <= k < Capacity(a.reserved) ==> s.taken[NthSlot(a.reserved, k)] == 0))
  }

  lemma ScanStopsAt(t: Table, v: u8, r: nat)
    requires r < X86_GP_COUNT && (t[r] == v || t[r] == 0)
    requires forall j :: 0 <= j < r ==> t[j] != v && t[j] != 0
    ensures Scan(t, v, 0) == r
  {
  }

  /** NthSlot enumerates the slots that are not reserved. */
  lemma RankOf(reserved: bool, j: nat) returns (k: nat)
    requires j < X86_GP_COUNT && !(reserved && (j == RSP || j == RBP))
    ensures k < Capacity(reserved) && NthSlot(reserved, k) == j
  {
    k := if reserved && j > RBP then j - 2 else j;
  }

  /** A scan finds the slot of an id already seen, or else the first free one. */
  lemma ScanFindsSlot(s: State, a: Seen, id: u8, k: nat)
    requires Represents(s, a) && !s.full && Plain(id)
    requires k < Capacity(a.reserved) && k <= |a.ids|
    requires k < |a.ids| ==> a.ids[k] == id
    requires k == |a.ids| ==> id !in a.ids
    ensures Scan(s.taken, (id + 1) % 256, 0) == NthSlot(a.reserved, k)
  {
    hide Scan;
    var r := NthSlot(a.reserved, k);
    forall j | 0 <= j < r
      ensures s.taken[j] != id + 1 && s.taken[j] != 0
    {
      if !(a.reserved && (j == RSP || j == RBP)) {
        var i := RankOf(a.reserved, j);
        assert a.ids[i] in a.ids && a.ids[i] != id;
      }
    }
    ScanStopsAt(s.taken, id + 1, r);
  }

  lemma ScanFindsNone(s: State, a: Seen, id: u8)
    requires Represents(s, a) && !s.full && Plain(id)
    requires id !in a.ids && |a.ids| == Capacity(a.reserved)
    ensures Scan(s.taken, (id + 1) % 256, 0) == X86_GP_COUNT
  {
    forall j | 0 <= j < X86_GP_COUNT
      ensures s.taken[j] != id + 1 && s.taken[j] != 0
    {
      if !(a.reserved && (j == RSP || j == RBP)) {
        var i := RankOf(a.reserved, j);
        assert a.ids[i] in a.ids;
      }
    }
  }

  lemma ClaimKeeps(s: State, a: Seen, id: u8)
    requires Represents(s, a) && !s.full && Plain(id) && id !in a.ids && |a.ids| < Capacity(a.reserved)
    ensures Represents(State(s.taken[NthSlot(a.reserved, |a.ids|) := id + 1], false), a.(ids := a.ids + [id]))
  {
    assert forall k :: 0 <= k < |a.ids| ==> a.ids[k] in a.ids;
  }

  lemma KnownRequest(s: State, a: Seen, id: u8)
    requires Represents(s, a) && !s.full && Plain(id) && id in a.ids
    ensures Alloc(s, id) == (s, Slot(NthSlot(a.reserved, IndexOf(a.ids, id))))
  {
    var k := IndexOf(a.ids, id);
    ScanFindsSlot(s, a, id, k);
    assert s.taken[NthSlot(a.reserved, k) := id + 1] == s.taken;
  }

  lemma NewRequest(s: State, a: Seen, id: u8)
    requires Represents(s, a) && !s.full && Plain(id) && id !in a.ids && |a.ids| < Capacity(a.reserved)
    ensures var slot := NthSlot(a.reserved, |a.ids|);
            Alloc(s, id) == (State(s.taken[slot := id + 1], false), Slot(slot))
  {
    ScanFindsSlot(s, a, id, |a.ids|);
  }

  lemma LateRequest(s: State, a: Seen, id: u8)
    requires Represents(s, a) && !s.full && Plain(id) && id !in a.ids && |a.ids| == Capacity(a.reserved)
    ensures Alloc(s, id).0.full && Alloc(s, id).1 == Spill
  {
    ScanFindsNone(s, a, id);
  }

  lemma RequestRefines(s: State, a: Seen, id: u8)
    requires Represents(s, a) && Plain(id)
    ensures Represents(Alloc(s, id).0, SeenStep(a, Request(id)).0)
    ensures Alloc(s, id).1 == SeenStep(a, Request(id)).1
  {
    if s.full {
    } else if id in a.ids {
      KnownRequest(s, a, id);
    } else if |a.ids| < Capacity(a.reserved) {
      NewRequest(s, a, id);
      ClaimKeeps(s, a, id);
    } else {
      LateRequest(s, a, id);
    }
  }

  lemma StartsRepresent(reserved: bool)
    ensures Represents(StartOf(reserved), Seen([], reserved, false))
  {
  }

  lemma {:induction false} RunRefines(s: State, a: Seen, ops: seq<Op>)
    requires Represents(s, a)
    requires forall op :: op in ops && op.Request? ==> Plain(op.id)
    ensures Outputs(s, ops, true) == SeenOutputs(a, ops)
    decreases ops
  {
    if ops == [] {
    } else {
      if ops[0].Request? {
        RequestRefines(s, a, ops[0].id);
      } else {
        StartsRepresent(false);
      }
      RunRefines(Step(s, ops[0], true).0, SeenStep(a, ops[0]).0, ops[1..]);
    }
  }

  /** From the static state every run of requests and resets behaves as the list of ids seen. */
  lemma AllocatorRefinesList(ops: seq<Op>)
    requires forall op :: op in ops && op.Request? ==> Plain(op.id)
    ensures Outputs(STATIC, ops, true) == SeenOutputs(Seen([], true, false), ops)
  {
    StartsRepresent(true);
    RunRefines(STATIC, Seen([], true, false), ops);
  }

  // ---- what a run between resets returns ----

  function Requests(ids: seq<u8>): (r: seq<Op>)
    ensures |r| == |ids|
  {
    seq(|ids|, i requires 0 <= i < |ids| => Request(ids[i]))
  }

  /** The distinct ids of a run, in the order they first appear. */
  function FirstSeen(ids: seq<u8>): (r: seq<u8>)
    ensures forall id :: id in r <==> id in ids
    ensures Distinct(r)
  {
    if ids == [] then []
    else
      var r := FirstSeen(ids[..|ids| - 1]);
      var last := ids[|ids| - 1];
      assert ids == ids[..|ids| - 1] + [last];
      if last in r then r else r + [last]
  }

  /** What the k-th request of a run returns. */
  function Answer(ids: seq<u8>, reserved: bool, k: nat): Out
    requires k < |ids|
  {
    var seen := FirstSeen(ids[..k + 1]);
    assert ids[..k + 1][k] == ids[k];
    if |seen| <= Capacity(reserved) then Slot(NthSlot(reserved, IndexOf(seen, ids[k]))) else Spill
  }

  /** The list after a run; a request beyond capacity closes it. */
  function SeenAfter(ids: seq<u8>, reserved: bool): (a: Seen)
    ensures |a.ids| <= Capacity(a.reserved)
  {
    var seen := FirstSeen(ids);
    if |seen| <= Capacity(reserved) then Seen(seen, reserved, false)
    else Seen(seen[..Capacity(reserved)], reserved, true)
  }

  lemma {:induction false} IndexOfIs(ids: seq<u8>, k: nat)
    requires k < |ids| && Distinct(ids)
    ensures IndexOf(ids, ids[k]) == k
  {
    if k == 0 {
    } else {
      IndexOfIs(ids[1..], k - 1);
    }
  }

  lemma FirstSeenAppend(p: seq<u8>, id: u8)
    ensures FirstSeen(p + [id]) == if id in p then FirstSeen(p) else FirstSeen(p) + [id]
    ensures id !in p ==> IndexOf(FirstSeen(p) + [id], id) == |FirstSeen(p)|
  {
    assert (p + [id])[..|p|] == p;
    if id !in p {
      var seen := FirstSeen(p + [id]);
      IndexOfIs(seen, |seen| - 1);
    }
  }

  lemma RequestAnswers(p: seq<u8>, id: u8, reserved: bool)
    ensures SeenStep(SeenAfter(p, reserved), Request(id))
            == (SeenAfter(p + [id], reserved), Answer(p + [id], reserved, |p|))
  {
    FirstSeenAppend(p, id);
    assert (p + [id])[..|p| + 1] == p + [id];
    var seen := FirstSeen(p);
    if |seen| > Capacity(reserved) {
      assert (seen + [id])[..Capacity(reserved)] == seen[..Capacity(reserved)];
    } else if id !in p && |seen| == Capacity(reserved) {
      assert (seen + [id])[..|seen|] == seen;
    }
  }

  lemma AnswerOfPrefix(p: seq<u8>, rest: seq<u8>, reserved: bool)
    requires |rest| > 0
    ensures Answer(p + rest, reserved, |p|) == Answer(p + [rest[0]], reserved, |p|)
  {
    assert (p + rest)[..|p| + 1] == p + [rest[0]] == (p + [rest[0]])[..|p| + 1];
  }

  lemma {:induction false} AnswersFrom(p: seq<u8>, rest: seq<u8>, reserved: bool, j: nat)
    requires j < |rest|
    ensures SeenOutputs(SeenAfter(p, reserved), Requests(rest))[j] == Answer(p + rest, reserved, |p| + j)
    decreases rest
  {
    RequestAnswers(p, rest[0], reserved);
    assert Requests(rest)[1..] == Requests(rest[1..]);
    if j == 0 {
      AnswerOfPrefix(p, rest, reserved);
    } else {
      AnswersFrom(p + [rest[0]], rest[1..], reserved, j - 1);
      assert p + [rest[0]] + rest[1..] == p + rest;
    }
  }

  /** A run between resets starts with RSP and RBP reserved, or, after a reset, with nothing taken. */
  function StartOf(reserved: bool): State {
    if reserved then STATIC else CLEARED
  }

  function Results(ids: seq<u8>, reserved: bool): (r: seq<Out>)
    ensures |r| == |ids|
  {
    Outputs(StartOf(reserved), Requests(ids), true)
  }

  /** The k-th request of a run between resets returns the slot at the rank of its id among the
      distinct ids requested so far, and -1 exactly from the first request beyond capacity on. */
  lemma RunAnswers(ids: seq<u8>, reserved: bool, k: nat)
    requires k < |ids| && forall id :: id in ids ==> Plain(id)
    ensures Results(ids, reserved)[k] == Answer(ids, reserved, k)
    ensures Results(ids, reserved)[k] == Spill <==> |FirstSeen(ids[..k + 1])| > Capacity(reserved)
  {
    var a := Seen([], reserved, false);
    StartsRepresent(reserved);
    RunRefines(StartOf(reserved), a, Requests(ids));
    assert SeenAfter([], reserved) == a;
    AnswersFrom([], ids, reserved, k);
    assert [] + ids == ids;
  }

  /** The same in numbers: twelve ids find a slot before the first reset and fourteen after it; slots 4 and
      5 are passed over before it. */
  lemma RunInNumbers(ids: seq<u8>, reserved: bool, k: nat)
    requires k < |ids| && forall id :: id in ids ==> Plain(id)
    ensures ids[k] in FirstSeen(ids[..k + 1])
    ensures var seen := FirstSeen(ids[..k + 1]);
            var rank := IndexOf(seen, ids[k]);
            Results(ids, reserved)[k]
            == if |seen| > (if reserved then 12 else 14) then Spill
               else Slot(if reserved && rank >= 4 then rank + 2 else rank)
  {
    RunAnswers(ids, reserved, k);
    assert ids[..k + 1][k] == ids[k];
  }

  /** One request, from any table and for any id: it is spilled exactly when the allocator is closed or
      none of the fourteen slots is free or holds its mark, and else given the first that is or does. */
  lemma RequestInNumbers(s: State, id: u8, mark: u8)
    requires mark == if id == 255 then 0 else id + 1
    ensures Alloc(s, id).1 == Spill
            <==> s.full || forall i :: 0 <= i < 14 ==> s.taken[i] != 0 && s.taken[i] != mark
    ensures Alloc(s, id).1 != Spill ==>
              && Alloc(s, id).1.Slot? && Alloc(s, id).1.index < 14
              && s.taken[Alloc(s, id).1.index] in {0, mark}
              && forall i :: 0 <= i < Alloc(s, id).1.index ==> s.taken[i] != 0 && s.taken[i] != mark
  {
    hide Scan, Alloc;
    MarkOf(id);
    SpillsWhenFull(s, id);
    if !s.full {
      AllocAt(s, id, mark, Scan(s.taken, mark, 0));
    }
  }

  /** What one request leaves: a slot given out holds the id's mark, and a request that finds none closes
      the allocator; X29 and SP then take the entries of RBP and RSP, 5 and 4. */
  lemma TableAfterRequest(s: State, id: u8, mark: u8)
    requires mark == if id == 255 then 0 else id + 1
    ensures s.full ==> Alloc(s, id).0 == s
    ensures Alloc(s, id).1.Slot? ==> Alloc(s, id).0 == State(s.taken[Alloc(s, id).1.index := mark], false)
    ensures !s.full && Alloc(s, id).1 == Spill ==>
              Alloc(s, id).0 == State(if id == 29 then s.taken[5 := 30] else if id == 31 then s.taken[4 := 32]
                                      else s.taken, true)
  {
    MarkOf(id);
  }

  /** The reservation of RSP and RBP lasts until the first reset: before it no request returns them,
      after it the fifth and the sixth distinct id do. */
  lemma ReservationEndsAtReset(ids: seq<u8>, reserved: bool, k: nat)
    requires k < |ids| && forall id :: id in ids ==> Plain(id)
    ensures ids[k] in FirstSeen(ids[..k + 1])
    ensures var o, seen := Results(ids, reserved)[k], FirstSeen(ids[..k + 1]);
            && (o == Slot(RSP) <==> !reserved && |seen| <= X86_GP_COUNT && IndexOf(seen, ids[k]) == 4)
            && (o == Slot(RBP) <==> !reserved && |seen| <= X86_GP_COUNT && IndexOf(seen, ids[k]) == 5)
  {
    RunAnswers(ids, reserved, k);
    assert ids[..k + 1][k] == ids[k];
  }

  // ---- two requests of a run, from any state ----

  function StateAfter(s: State, ids: seq<u8>): State
    decreases ids
  {
    if ids == [] then s else StateAfter(Alloc(s, ids[0]).0, ids[1..])
  }

  /** What the requests of a run return, from any state of the table. */
  function Answers(s: State, ids: seq<u8>): (r: seq<Out>)
    ensures |r| == |ids|
  {
    Outputs(s, Requests(ids), true)
  }

  lemma {:induction false} AnswerAt(s: State, ids: seq<u8>, k: nat)
    requires k < |ids|
    ensures Answers(s, ids)[k] == Alloc(StateAfter(s, ids[..k]), ids[k]).1
    decreases k
  {
    assert Requests(ids)[1..] == Requests(ids[1..]);
    assert Step(s, Requests(ids)[0], true) == Alloc(s, ids[0]);
    hide Alloc, AllocWith;
    if k == 0 {
    } else {
      AnswerAt(Alloc(s, ids[0]).0, ids[1..], k - 1);
      assert ids[..k][1..] == ids[1..][..k - 1];
    }
  }

  lemma {:induction false} AfterSplit(s: State, ids: seq<u8>, j: nat)
    requires j <= |ids|
    ensures StateAfter(s, ids) == StateAfter(StateAfter(s, ids[..j]), ids[j..])
    decreases j
  {
    hide Alloc;
    if j == 0 {
      assert ids[0..] == ids;
    } else {
      AfterSplit(Alloc(s, ids[0]).0, ids[1..], j - 1);
      assert ids[..j][1..] == ids[1..][..j - 1] && ids[j..] == ids[1..][j - 1..];
    }
  }

  /** The invariant behind a slot that was given out: it holds its mark, and no slot before it is free. */
  predicate Held(t: Table, v: u8, i: nat) {
    v != 0 && i < X86_GP_COUNT && t[i] == v && forall j :: 0 <= j < i ==> t[j] != v && t[j] != 0
  }

  lemma AllocAt(s: State, id: u8, v: u8, i: nat)
    requires !s.full && v == (id + 1) % 256 && i == Scan(s.taken, v, 0)
    ensures i < X86_GP_COUNT ==> Alloc(s, id) == (State(s.taken[i := v], false), Slot(i))
    ensures i == X86_GP_COUNT ==> Alloc(s, id).0.full && Alloc(s, id).1 == Spill
  {
  }

  lemma SlotHeld(s: State, id: u8)
    requires Alloc(s, id).1.Slot? && id != 255
    ensures Held(Alloc(s, id).0.taken, id + 1, Alloc(s, id).1.index)
  {
  }

  lemma HeldStays(s: State, id: u8, v: u8, i: nat)
    requires s.full || Held(s.taken, v, i)
    ensures Alloc(s, id).0.full || Held(Alloc(s, id).0.taken, v, i)
  {
  }

  lemma {:induction false} HeldAfter(s: State, ids: seq<u8>, v: u8, i: nat)
    requires s.full || Held(s.taken, v, i)
    ensures StateAfter(s, ids).full || Held(StateAfter(s, ids).taken, v, i)
    decreases ids
  {
    hide Alloc, Held;
    if ids == [] {
    } else {
      HeldStays(s, ids[0], v, i);
      HeldAfter(Alloc(s, ids[0]).0, ids[1..], v, i);
    }
  }

  /** Only the id a slot is held for is given the slot. */
  lemma HeldAnswers(s: State, id: u8, v: u8, i: nat)
    requires Held(s.taken, v, i) && Alloc(s, id).1.Slot?
    ensures Alloc(s, id).1 == Slot(i) <==> (id + 1) % 256 == v
  {
    if (id + 1) % 256 == v {
      ScanStopsAt(s.taken, v, i);
    }
  }

  /** The mapping is a stable injection, from any state of the table and for all ids: two requests that
      were given slots were given the same slot exactly when they asked for the same id, unless the
      earlier one asked for id 255. */
  lemma MappingIsInjection(s: State, ids: seq<u8>, j: nat, k: nat)
    requires j <= k < |ids| && ids[j] != 255
    requires Answers(s, ids)[j].Slot? && Answers(s, ids)[k].Slot?
    ensures Answers(s, ids)[j] == Answers(s, ids)[k] <==> ids[j] == ids[k]
  {
    hide Answers, Alloc, Held;
    AnswerAt(s, ids, j);
    AnswerAt(s, ids, k);
    if j < k {
      var before, v := StateAfter(s, ids[..j]), ids[j] + 1;
      var i := Alloc(before, ids[j]).1.index;
      SlotHeld(before, ids[j]);
      AfterSplit(s, ids[..k], j);
      assert ids[..k][..j] == ids[..j];
      var rest := ids[..k][j..];
      assert rest[0] == ids[j];
      HeldAfter(Alloc(before, ids[j]).0, rest[1..], v, i);
      SpillsWhenFull(StateAfter(s, ids[..k]), ids[k]);
      HeldAnswers(StateAfter(s, ids[..k]), ids[k], v, i);
    }
  }

  lemma SpillsWhenFull(s: State, id: u8)
    ensures s.full ==> Alloc(s, id) == (s, Spill)
  {
  }

  // ---- runs with id 255 ----

  /** The branch in which a request claims a free slot. Id 255, whose mark wraps to 0, claims none. */
  predicate Claims(s: State, id: u8) {
    !s.full && id != 255
    && var i := Scan(s.taken, id + 1, 0);
       i < X86_GP_COUNT && s.taken[i] == 0
  }

  /** For the other ids, in a run from the start: a request claims a slot if the id is new and a slot is
      left. */
  lemma ClaimsIff(s: State, a: Seen, id: u8)
    requires Represents(s, a) && !s.full && Plain(id)
    ensures Claims(s, id) <==> id !in a.ids && |a.ids| < Capacity(a.reserved)
  {
    hide Scan;
    assert (id + 1) % 256 == id + 1;
    if id in a.ids {
      ScanFindsSlot(s, a, id, IndexOf(a.ids, id));
    } else if |a.ids| < Capacity(a.reserved) {
      ScanFindsSlot(s, a, id, |a.ids|);
    } else {
      ScanFindsNone(s, a, id);
    }
  }

  lemma MarkOf(id: u8)
    ensures (id + 1) % 256 == if id == 255 then 0 else id + 1
  {
  }

  lemma SameEntry(t: Table, i: nat, v: u8)
    requires i < TABLE_SIZE && t[i] == v
    ensures t[i := v] == t
  {
  }

  lemma NoClaimKeeps(s: State, id: u8)
    requires !Claims(s, id)
    ensures Alloc(s, id).0 == s || Alloc(s, id).0.full
    ensures Alloc(s, id).1.Slot? ==> (s.taken[Alloc(s, id).1.index] == 0 <==> id == 255)
  {
    hide Scan, Alloc;
    var v: u8 := (id + 1) % 256;
    var i := Scan(s.taken, v, 0);
    MarkOf(id);
    SpillsWhenFull(s, id);
    if !s.full {
      AllocAt(s, id, v, i);
      if i < X86_GP_COUNT {
        SameEntry(s.taken, i, v);
      }
    }
  }

  lemma {:induction false} FullStays(s: State, ids: seq<u8>)
    requires s.full
    ensures StateAfter(s, ids) == s
    decreases ids
  {
    hide Alloc;
    if ids == [] {
    } else {
      SpillsWhenFull(s, ids[0]);
      FullStays(s, ids[1..]);
    }
  }

  predicate FirstFree(s: State, r: nat) {
    !s.full && r < X86_GP_COUNT && s.taken[r] == 0 && forall j :: 0 <= j < r ==> s.taken[j] != 0
  }

  /** A request for 255 is given the first free slot, and a request that claims a slot is given it too. */
  lemma FirstFreeGiven(s: State, id: u8, r: nat)
    requires FirstFree(s, r) && (id == 255 || Claims(s, id))
    ensures Alloc(s, id).1 == Slot(r)
    ensures id == 255 ==> Alloc(s, id).0 == s
  {
    hide Alloc, Scan;
    var v: u8 := (id + 1) % 256;
    if id == 255 {
      ScanStopsAt(s.taken, 0, r);
      assert s.taken[r := 0] == s.taken;
    } else {
      var i := Scan(s.taken, v, 0);
      assert i == r;
    }
    AllocAt(s, id, v, r);
  }

  lemma ClaimHasFree(s: State, id: u8) returns (r: nat)
    requires Claims(s, id)
    ensures FirstFree(s, r)
  {
    r := Scan(s.taken, id + 1, 0);
  }

  /** The first request of a run that claims a slot is given the slot that was free at its start. */
  lemma {:induction false} FirstClaim(s: State, ids: seq<u8>, k: nat) returns (m: nat)
    requires k < |ids| && Claims(StateAfter(s, ids[..k]), ids[k])
    ensures m <= k && ids[m] != 255
    ensures exists r :: FirstFree(s, r) && Alloc(StateAfter(s, ids[..m]), ids[m]).1 == Slot(r)
    decreases k
  {
    hide Alloc, Claims, FirstFree;
    if Claims(s, ids[0]) {
      m := 0;
      ClaimNot255(s, ids[0]);
      var r := ClaimHasFree(s, ids[0]);
      FirstFreeGiven(s, ids[0], r);
    } else {
      var s' := Alloc(s, ids[0]).0;
      assert k > 0;
      assert ids[..k][1..] == ids[1..][..k - 1];
      NoClaimKeeps(s, ids[0]);
      if s'.full {
        FullStays(s', ids[..k][1..]);
        ClaimNot255(s', ids[k]);
      }
      var n := FirstClaim(s', ids[1..], k - 1);
      m := n + 1;
      assert ids[..m][1..] == ids[1..][..n];
    }
  }

  lemma ClaimNot255(s: State, id: u8)
    ensures Claims(s, id) ==> !s.full && id != 255
  {
  }

  ghost predicate RunInjective(s: State, ids: seq<u8>) {
    forall j, k :: 0 <= j <= k < |ids| && Answers(s, ids)[j].Slot? && Answers(s, ids)[k].Slot? ==>
                     (Answers(s, ids)[j] == Answers(s, ids)[k] <==> ids[j] == ids[k])
  }

  /** A request claims a slot after a request for id 255. */
  ghost predicate ClaimAfter255(s: State, ids: seq<u8>) {
    exists j, k :: 0 <= j < k < |ids| && ids[j] == 255 && Claims(StateAfter(s, ids[..k]), ids[k])
  }

  /** A claim after a request for 255 at j: the first such claim is given the slot that 255 was given. */
  lemma SharedSlot(s: State, ids: seq<u8>, j: nat, k: nat)
    requires j < k < |ids| && ids[j] == 255 && Claims(StateAfter(s, ids[..k]), ids[k])
    ensures !RunInjective(s, ids)
  {
    hide Alloc, Claims, Answers, FirstFree;
    var before, rest := StateAfter(s, ids[..j]), ids[j..];
    RunFromAt(s, ids, j, k);
    var m := FirstClaim(before, rest, k - j);
    var r :| FirstFree(before, r) && Alloc(StateAfter(before, rest[..m]), rest[m]).1 == Slot(r);
    RunFromAt(s, ids, j, j + m);
    FirstFreeGiven(before, 255, r);
    AnswerAt(s, ids, j);
    AnswerAt(s, ids, j + m);
  }

  lemma RunFromAt(s: State, ids: seq<u8>, j: nat, k: nat)
    requires j <= k < |ids|
    ensures StateAfter(s, ids[..k]) == StateAfter(StateAfter(s, ids[..j]), ids[j..][..k - j])
  {
    AfterSplit(s, ids[..k], j);
    assert ids[..k][..j] == ids[..j] && ids[..k][j..] == ids[j..][..k - j];
  }

  lemma {:induction false} NoClaimsSame(s: State, ids: seq<u8>, k: nat)
    requires k <= |ids|
    requires forall m :: 0 <= m < k ==> !Claims(StateAfter(s, ids[..m]), ids[m])
    ensures StateAfter(s, ids[..k]) == s || StateAfter(s, ids[..k]).full
    decreases k
  {
    hide Alloc, Claims;
    if k == 0 {
    } else {
      NoClaimsSame(s, ids, k - 1);
      var last := StateAfter(s, ids[..k - 1]);
      NoClaimKeeps(last, ids[k - 1]);
      SpillsWhenFull(last, ids[k - 1]);
      AfterSplit(s, ids[..k], k - 1);
      assert ids[..k][..k - 1] == ids[..k - 1] && ids[..k][k - 1..] == [ids[k - 1]];
      assert StateAfter(last, [ids[k - 1]]) == StateAfter(Alloc(last, ids[k - 1]).0, []);
    }
  }

  /** Without claims after it, a request for 255 shares its slot with later requests for 255 only. */
  lemma UnsharedSlot(s: State, ids: seq<u8>, j: nat, k: nat)
    requires j <= k < |ids| && ids[j] == 255 && !ClaimAfter255(s, ids)
    requires Answers(s, ids)[j].Slot? && Answers(s, ids)[k].Slot?
    ensures Answers(s, ids)[j] == Answers(s, ids)[k] <==> ids[k] == 255
  {
    hide Alloc, Claims, Answers;
    var before, rest := StateAfter(s, ids[..j]), ids[j..];
    forall m | 0 <= m < k - j
      ensures !Claims(StateAfter(before, rest[..m]), rest[m])
    {
      RunFromAt(s, ids, j, j + m);
      ClaimNot255(before, 255);
    }
    NoClaimsSame(before, rest, k - j);
    RunFromAt(s, ids, j, k);
    AnswerAt(s, ids, j);
    AnswerAt(s, ids, k);
    SpillsWhenFull(StateAfter(s, ids[..k]), ids[k]);
    ClaimNot255(before, 255);
    NoClaimKeeps(before, 255);
    NoClaimKeeps(before, ids[k]);
  }

  /** A run from any state gives out slots one to one exactly when no request claims a slot after a
      request for id 255. */
  lemma RunInjectiveIff(s: State, ids: seq<u8>)
    ensures RunInjective(s, ids) <==> !ClaimAfter255(s, ids)
  {
    hide Answers, Claims;
    if ClaimAfter255(s, ids) {
      var j, k :| 0 <= j < k < |ids| && ids[j] == 255 && Claims(StateAfter(s, ids[..k]), ids[k]);
      SharedSlot(s, ids, j, k);
    } else {
      forall j, k | 0 <= j <= k < |ids| && Answers(s, ids)[j].Slot? && Answers(s, ids)[k].Slot?
        ensures Answers(s, ids)[j] == Answers(s, ids)[k] <==> ids[j] == ids[k]
      {
        if ids[j] == 255 {
          UnsharedSlot(s, ids, j, k);
        } else {
          MappingIsInjection(s, ids, j, k);
        }
      }
    }
  }

  /** Id 255 wraps to the mark of a free slot, so it is given a slot that the next id is given too. */
  lemma Id255SharesASlot()
    ensures Results([255, 0], true) == [Slot(0), Slot(0)]
  {
    assert Requests([255, 0])[1..] == Requests([0]);
    assert Requests([0])[1..] == [];
    assert STATIC.taken[0 := 0] == STATIC.taken;
  }

  /** Id 254 matches the reservation mark: from the static state on it is given RSP exactly once the four
      slots before RSP are claimed. */
  lemma Id254TakesReservedSlot(a: Seen, s: State)
    requires Represents(s, a) && a.reserved && !a.full
    ensures Alloc(s, 254).1 == Slot(RSP) <==> 4 <= |a.ids|
  {
    hide Scan, Alloc;
    AllocAt(s, 254, 255, Scan(s.taken, 255, 0));
    if 4 <= |a.ids| {
      forall j | 0 <= j < RSP
        ensures s.taken[j] != 255 && s.taken[j] != 0
      {
        assert NthSlot(true, j) == j;
      }
      ScanStopsAt(s.taken, 255, RSP);
    } else {
      assert NthSlot(true, |a.ids|) == |a.ids| && s.taken[|a.ids|] == 0;
    }
  }
}
