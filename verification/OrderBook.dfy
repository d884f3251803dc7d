/** One ticker's book (crates/market-engine/src/book/order_book.rs): two position-ordered vectors
    and an order-id index that is patched in place by every operation. */
module OrderBooks {
  import opened Base
  import opened Types

  /** Where the index says an id is: a side and a position in that side's vector. */
  datatype Slot = Slot(side: Side, pos: nat)

  // ----- the book as a value -----

  datatype BookState = BookState(
    bids: seq<BookEntry>,
    asks: seq<BookEntry>,
    index: map<Bytes, Slot>,
    initialised: bool)
  {
    function Vec(side: Side): seq<BookEntry> {
      if side.Buy? then bids else asks
    }

    function WithVec(side: Side, vec: seq<BookEntry>): BookState {
      if side.Buy? then this.(bids := vec) else this.(asks := vec)
    }
  }

  const EMPTY: BookState := BookState([], [], map[], false)

  function Min(a: nat, b: nat): nat {
    if a <= b then a else b
  }

  function ShiftedSlot(slot: Slot, side: Side, from: nat, delta: int): Slot {
    if slot.side == side && slot.pos >= from && slot.pos + delta >= 0 then Slot(slot.side, slot.pos + delta) else slot
  }

  function Shifted(index: map<Bytes, Slot>, side: Side, from: nat, delta: int): map<Bytes, Slot> {
    map id | id in index :: ShiftedSlot(index[id], side, from, delta)
  }

  function IdOf(e: BookEntry): set<Bytes> {
    if e.orderId.Some? then {e.orderId.value} else {}
  }

  function Ids(entries: seq<BookEntry>): set<Bytes> {
    if entries == [] then {} else IdOf(entries[0]) + Ids(entries[1..])
  }

  lemma {:induction false} InIds(entries: seq<BookEntry>, id: Bytes)
    ensures id in Ids(entries) <==> exists j :: 0 <= j < |entries| && entries[j].orderId == Some(id)
  {
    if entries != [] {
      var rest := entries[1..];
      InIds(rest, id);
      if id in Ids(rest) {
        var j :| 0 <= j < |rest| && rest[j].orderId == Some(id);
        assert entries[j + 1].orderId == Some(id);
      }
      if j :| 0 <= j < |entries| && entries[j].orderId == Some(id) {
        assert j > 0 ==> rest[j - 1].orderId == Some(id);
      }
    }
  }

  function Inserted(b: BookState, e: BookEntry): BookState {
    var vec := b.Vec(e.side);
    var p := Min(e.position, |vec|);
    var b' := b.WithVec(e.side, vec[..p] + [e] + vec[p..]);
    var index := if e.position >= |vec| then b.index else Shifted(b.index, e.side, p, 1);
    b'.(index := if e.orderId.Some? then index[e.orderId.value := Slot(e.side, p)] else index)
  }

  function Removed(b: BookState, side: Side, pos: nat): BookState {
    var vec := b.Vec(side);
    if pos >= |vec| then b
    else
      b.WithVec(side, vec[..pos] + vec[pos + 1..])
       .(index := Shifted(b.index, side, pos, -1) - IdOf(vec[pos]))
  }

  /** The steps of `update` on an old position that exists: both shifts and the index write. */
  function Moved(b: BookState, oldPos: nat, e: BookEntry): BookState
    requires oldPos < |b.Vec(e.side)|
  {
    var removed := b.Vec(e.side)[oldPos];
    var vec := b.Vec(e.side)[..oldPos] + b.Vec(e.side)[oldPos + 1..];
    var index := Shifted(b.index, e.side, oldPos, -1) - IdOf(removed);
    var vec' := if e.position >= |vec| then vec + [e] else vec[..e.position] + [e] + vec[e.position..];
    var index' := if e.position >= |vec| then index else Shifted(index, e.side, e.position, 1);
    b.WithVec(e.side, vec')
     .(index := if e.orderId.Some? then index'[e.orderId.value := Slot(e.side, Min(e.position, |vec'| - 1))] else index')
  }

  function PrefixRemoved(b: BookState, side: Side, pos: nat): BookState {
    var vec := b.Vec(side);
    var end := Min(pos + 1, |vec|);
    b.WithVec(side, vec[end..])
     .(index := Shifted(b.index - Ids(vec[..end]), side, 0, -(end as int)))
  }

  function Cleared(b: BookState): BookState {
    b.(bids := [], asks := [], index := map[])
  }

  function Applied(b: BookState, op: BookOp): BookState {
    match op
    case Add(e) => Inserted(b, e)
    case Update(oldPos, e) =>
      if oldPos >= |b.Vec(e.side)| then Inserted(b, e) else Moved(b, oldPos, e)
    case Delete(Single(side, pos)) => Removed(b, side, pos)
    case Delete(PrefixInclusive(side, pos)) => PrefixRemoved(b, side, pos)
    case Delete(ClearAll) => Cleared(b)
    case EndOfInitial => b.(initialised := true)
  }

  function AppliedAll(b: BookState, ops: seq<BookOp>): BookState {
    if ops == [] then b else Applied(AppliedAll(b, ops[..|ops| - 1]), ops[|ops| - 1])
  }

  // ----- soundness of the index: no hypothesis on the operations -----

  ghost predicate Points(b: BookState, id: Bytes, slot: Slot) {
    slot.pos < |b.Vec(slot.side)| && b.Vec(slot.side)[slot.pos].orderId == Some(id)
  }

  ghost predicate Sound(b: BookState) {
    forall id :: id in b.index ==> Points(b, id, b.index[id])
  }

  /** The state after an insert, entry by entry. */
  lemma InsertedParts(b: BookState, e: BookEntry)
    ensures var b', p := Inserted(b, e), Min(e.position, |b.Vec(e.side)|);
            && b'.Vec(e.side) == b.Vec(e.side)[..p] + [e] + b.Vec(e.side)[p..]
            && (forall side :: side != e.side ==> b'.Vec(side) == b.Vec(side))
            && b'.index.Keys == b.index.Keys + (if e.orderId.Some? then {e.orderId.value} else {})
            && (e.orderId.Some? ==> b'.index[e.orderId.value] == Slot(e.side, p))
  {}

  lemma InsertedIndex(b: BookState, e: BookEntry)
    requires Sound(b)
    ensures var b', p := Inserted(b, e), Min(e.position, |b.Vec(e.side)|);
            forall id :: id in b'.index && e.orderId != Some(id) ==>
              && id in b.index
              && b'.index[id]
                 == Slot(b.index[id].side, b.index[id].pos + (if b.index[id].side == e.side && b.index[id].pos >= p then 1 else 0))
  {
    var b' := Inserted(b, e);
    forall id | id in b'.index && e.orderId != Some(id) ensures Points(b, id, b.index[id]) {}
  }

  lemma InsertedSound(b: BookState, e: BookEntry)
    requires Sound(b)
    ensures Sound(Inserted(b, e))
  {
    hide Inserted;
    forall id | id in Inserted(b, e).index ensures Points(Inserted(b, e), id, Inserted(b, e).index[id]) {
      InsertedPoints(b, e, id);
    }
  }

  lemma InsertedPoints(b: BookState, e: BookEntry, id: Bytes)
    requires Sound(b) && id in Inserted(b, e).index
    ensures Points(Inserted(b, e), id, Inserted(b, e).index[id])
  {
    hide Inserted, Shifted;
    InsertedParts(b, e);
    InsertedIndex(b, e);
    if e.orderId != Some(id) {
      assert Points(b, id, b.index[id]);
    }
  }

  lemma RemovedVecs(b: BookState, side: Side, pos: nat)
    requires pos < |b.Vec(side)|
    ensures Removed(b, side, pos).Vec(side) == b.Vec(side)[..pos] + b.Vec(side)[pos + 1..]
    ensures forall s :: s != side ==> Removed(b, side, pos).Vec(s) == b.Vec(s)
    ensures Removed(b, side, pos).index == Shifted(b.index, side, pos, -1) - IdOf(b.Vec(side)[pos])
  {
    hide Shifted, IdOf;
  }

  lemma PrefixRemovedVecs(b: BookState, side: Side, pos: nat)
    ensures PrefixRemoved(b, side, pos).Vec(side) == b.Vec(side)[Min(pos + 1, |b.Vec(side)|)..]
    ensures forall s :: s != side ==> PrefixRemoved(b, side, pos).Vec(s) == b.Vec(s)
    ensures var end := Min(pos + 1, |b.Vec(side)|);
            PrefixRemoved(b, side, pos).index == Shifted(b.index - Ids(b.Vec(side)[..end]), side, 0, -(end as int))
  {
    hide Shifted, Ids;
  }

  lemma RemoveOutOfRange(b: BookState, s: Side, pos: nat)
    requires pos >= |b.Vec(s)|
    ensures Removed(b, s, pos) == b
  {}

  function Minus(a: nat, n: nat): nat {
    if a >= n then a - n else 0
  }

  /** `slot` once `n` entries have left `side` at or before it. */
  function Slide(slot: Slot, side: Side, from: nat, n: nat): Slot {
    if slot.side == side && slot.pos >= from then Slot(side, Minus(slot.pos, n)) else slot
  }

  function Survivors(index: map<Bytes, Slot>, gone: set<Bytes>, side: Side, from: nat, n: nat): map<Bytes, Slot> {
    map id | id in index && id !in gone :: Slide(index[id], side, from, n)
  }

  /** The `new >= 0` guard of `shift_indices_after` skips no id that stays in the index. */
  ghost predicate NoneSkipped(index: map<Bytes, Slot>, gone: set<Bytes>, side: Side, from: nat, n: nat) {
    forall id :: id in index && id !in gone && index[id].side == side && index[id].pos >= from ==>
      index[id].pos - n >= 0
  }

  lemma ShiftThenForget(index: map<Bytes, Slot>, gone: set<Bytes>, side: Side, pos: nat)
    requires forall id :: id in index && id !in gone ==> index[id] != Slot(side, pos)
    ensures Shifted(index, side, pos, -1) - gone == Survivors(index, gone, side, pos, 1)
    ensures NoneSkipped(index, gone, side, pos, 1)
  {
    var left := Shifted(index, side, pos, -1) - gone;
    assert left.Keys == Survivors(index, gone, side, pos, 1).Keys;
  }

  lemma ForgetThenShift(index: map<Bytes, Slot>, gone: set<Bytes>, side: Side, n: nat)
    requires forall id :: id in index && id !in gone && index[id].side == side ==> index[id].pos >= n
    ensures Shifted(index - gone, side, 0, -(n as int)) == Survivors(index, gone, side, 0, n)
    ensures NoneSkipped(index, gone, side, 0, n)
  {
    var left := Shifted(index - gone, side, 0, -(n as int));
    assert left.Keys == Survivors(index, gone, side, 0, n).Keys;
  }

  lemma SlotOfOther(b: BookState, side: Side, pos: nat, id: Bytes)
    requires Sound(b) && pos < |b.Vec(side)| && id in b.index && id !in IdOf(b.Vec(side)[pos])
    ensures b.index[id] != Slot(side, pos)
  {
    assert Points(b, id, b.index[id]);
  }

  /** What is left of the index after a removal, whatever the order of shift and removal. */
  lemma RemovedIndex(b: BookState, side: Side, pos: nat)
    requires Sound(b) && pos < |b.Vec(side)|
    ensures Removed(b, side, pos).index == Survivors(b.index, IdOf(b.Vec(side)[pos]), side, pos, 1)
    ensures NoneSkipped(b.index, IdOf(b.Vec(side)[pos]), side, pos, 1)
    ensures forall id :: id in b.index && id !in IdOf(b.Vec(side)[pos]) ==> b.index[id] != Slot(side, pos)
  {
    hide Removed, Sound, Shifted, Survivors, NoneSkipped, IdOf;
    var gone := IdOf(b.Vec(side)[pos]);
    RemovedVecs(b, side, pos);
    forall id | id in b.index && id !in gone ensures b.index[id] != Slot(side, pos) {
      SlotOfOther(b, side, pos, id);
    }
    ShiftThenForget(b.index, gone, side, pos);
  }

  lemma RemovedSound(b: BookState, side: Side, pos: nat)
    requires Sound(b)
    ensures Sound(Removed(b, side, pos))
  {
    if pos < |b.Vec(side)| {
      forall id | id in Removed(b, side, pos).index
        ensures Points(Removed(b, side, pos), id, Removed(b, side, pos).index[id])
      {
        RemovedPoints(b, side, pos, id);
      }
    }
  }

  lemma RemovedPoints(b: BookState, side: Side, pos: nat, id: Bytes)
    requires Sound(b) && pos < |b.Vec(side)| && id in Removed(b, side, pos).index
    ensures Points(Removed(b, side, pos), id, Removed(b, side, pos).index[id])
  {
    hide Removed, NoneSkipped, Shifted, IdOf;
    RemovedIndex(b, side, pos);
    RemovedVecs(b, side, pos);
    assert Points(b, id, b.index[id]);
  }

  lemma PrefixRemovedIndex(b: BookState, side: Side, pos: nat)
    requires Sound(b)
    ensures var end := Min(pos + 1, |b.Vec(side)|);
            && PrefixRemoved(b, side, pos).index == Survivors(b.index, Ids(b.Vec(side)[..end]), side, 0, end)
            && NoneSkipped(b.index, Ids(b.Vec(side)[..end]), side, 0, end)
  {
    hide PrefixRemoved, Ids, Sound, Shifted, Survivors, NoneSkipped;
    var end := Min(pos + 1, |b.Vec(side)|);
    var gone := Ids(b.Vec(side)[..end]);
    PrefixRemovedVecs(b, side, pos);
    forall id | id in b.index && id !in gone && b.index[id].side == side ensures b.index[id].pos >= end {
      PrefixSurvivor(b, side, end, id);
    }
    ForgetThenShift(b.index, gone, side, end);
  }

  lemma PrefixSurvivor(b: BookState, side: Side, end: nat, id: Bytes)
    requires Sound(b) && id in b.index && end <= |b.Vec(side)| && id !in Ids(b.Vec(side)[..end])
    ensures b.index[id].side == side ==> b.index[id].pos >= end
  {
    var drained := b.Vec(side)[..end];
    InIds(drained, id);
    assert Points(b, id, b.index[id]);
    assert forall j :: 0 <= j < end ==> drained[j] == b.Vec(side)[j];
  }

  lemma PrefixRemovedSound(b: BookState, side: Side, pos: nat)
    requires Sound(b)
    ensures Sound(PrefixRemoved(b, side, pos))
  {
    hide PrefixRemoved, Ids, Shifted;
    PrefixRemovedIndex(b, side, pos);
    PrefixRemovedVecs(b, side, pos);
    var b' := PrefixRemoved(b, side, pos);
    forall id | id in b'.index ensures Points(b', id, b'.index[id]) {
      assert Points(b, id, b.index[id]);
    }
  }

  lemma AppliedSound(b: BookState, op: BookOp)
    requires Sound(b)
    ensures Sound(Applied(b, op))
  {
    match op
    case Add(e) => InsertedSound(b, e);
    case Update(oldPos, e) =>
      UpdateIsDeleteThenAdd(b, oldPos, e);
      RemovedSound(b, e.side, oldPos);
      InsertedSound(Removed(b, e.side, oldPos), e);
    case Delete(Single(side, pos)) => RemovedSound(b, side, pos);
    case Delete(PrefixInclusive(side, pos)) => PrefixRemovedSound(b, side, pos);
    case Delete(ClearAll) =>
    case EndOfInitial => assert forall id, slot :: Points(b, id, slot) ==> Points(Applied(b, op), id, slot);
  }

  /** Whatever the feed sends, every index entry points at an entry that carries its id. */
  lemma {:induction false} EveryRunIsSound(ops: seq<BookOp>)
    ensures Sound(AppliedAll(EMPTY, ops))
  {
    if ops != [] {
      EveryRunIsSound(ops[..|ops| - 1]);
      AppliedSound(AppliedAll(EMPTY, ops[..|ops| - 1]), ops[|ops| - 1]);
    }
  }

  // ----- the flag: has the initial snapshot ended? -----

  /** Only the end of the initial snapshot sets the flag, and nothing takes it back. */
  lemma AppliedFlag(b: BookState, op: BookOp)
    ensures Applied(b, op).initialised <==> b.initialised || op == EndOfInitial
  {
    hide Shifted, Ids;
  }

  /** The answer of `apply` after any run: whether the end of the initial snapshot was in it. */
  lemma {:induction false} FlagOfRun(ops: seq<BookOp>)
    ensures AppliedAll(EMPTY, ops).initialised <==> EndOfInitial in ops
  {
    hide Applied;
    if ops != [] {
      var front, last := ops[..|ops| - 1], ops[|ops| - 1];
      FlagOfRun(front);
      AppliedFlag(AppliedAll(EMPTY, front), last);
      assert ops == front + [last];
    }
  }

  // ----- operations in terms of one another, on the whole state -----

  function SinglesRemoved(b: BookState, side: Side, n: nat): BookState
    decreases n
  {
    if n == 0 then b else SinglesRemoved(Removed(b, side, 0), side, n - 1)
  }

  lemma PrefixOfEmpty(b: BookState, side: Side, pos: nat)
    requires b.Vec(side) == []
    ensures PrefixRemoved(b, side, pos) == b
  {
    assert Ids([]) == {};
    assert PrefixRemoved(b, side, pos).index == b.index;
  }

  lemma PrefixPeelsOne(b: BookState, side: Side, pos: nat)
    requires Sound(b) && b.Vec(side) != []
    ensures pos == 0 ==> PrefixRemoved(b, side, pos) == Removed(b, side, 0)
    ensures pos > 0 ==> PrefixRemoved(b, side, pos) == PrefixRemoved(Removed(b, side, 0), side, pos - 1)
  {
    PrefixPeelsIndex(b, side, pos);
    PrefixPeelsVecs(b, side, pos);
  }

  lemma PrefixPeelsVecs(b: BookState, side: Side, pos: nat)
    requires b.Vec(side) != []
    ensures var b0, b1 := PrefixRemoved(b, side, pos), Removed(b, side, 0);
            var b2 := if pos == 0 then b1 else PrefixRemoved(b1, side, pos - 1);
            b0.bids == b2.bids && b0.asks == b2.asks && b0.initialised == b2.initialised
  {
    hide Shifted, Ids, IdOf;
    RemovedVecs(b, side, 0);
  }

  lemma PrefixPeelsIndex(b: BookState, side: Side, pos: nat)
    requires Sound(b) && b.Vec(side) != []
    ensures pos == 0 ==> PrefixRemoved(b, side, pos).index == Removed(b, side, 0).index
    ensures pos > 0 ==> PrefixRemoved(b, side, pos).index == PrefixRemoved(Removed(b, side, 0), side, pos - 1).index
  {
    hide Removed, PrefixRemoved, Sound, NoneSkipped, Survivors, IdOf, Ids;
    var vec := b.Vec(side);
    var end := Min(pos + 1, |vec|);
    var b1 := Removed(b, side, 0);
    RemovedVecs(b, side, 0);
    RemovedIndex(b, side, 0);
    RemovedSound(b, side, 0);
    PrefixRemovedIndex(b, side, pos);
    if pos == 0 {
      IdsOfFirst(vec, b1.Vec(side), end);
    } else {
      PrefixRemovedIndex(b1, side, pos - 1);
      IdsOfFirst(vec, b1.Vec(side), end);
      SurvivorsCompose(b.index, IdOf(vec[0]), Ids(b1.Vec(side)[..end - 1]), side, end - 1);
      assert Min(pos, |b1.Vec(side)|) == end - 1;
    }
  }

  lemma IdsOfFirst(vec: seq<BookEntry>, rest: seq<BookEntry>, end: nat)
    requires vec != [] && rest == vec[..0] + vec[1..] && 0 < end <= |vec|
    ensures Ids(vec[..end]) == IdOf(vec[0]) + Ids(rest[..end - 1])
    ensures end == 1 ==> Ids(vec[..end]) == IdOf(vec[0])
  {
    assert vec[..end][1..] == rest[..end - 1];
  }

  lemma SurvivorsCompose(index: map<Bytes, Slot>, gone1: set<Bytes>, gone2: set<Bytes>, side: Side, n: nat)
    ensures Survivors(Survivors(index, gone1, side, 0, 1), gone2, side, 0, n)
         == Survivors(index, gone1 + gone2, side, 0, n + 1)
  {}

  /** Deleting `0..=pos` at once is `pos + 1` deletions of the best entry. */
  lemma {:induction false} PrefixIsRepeatedSingle(b: BookState, side: Side, pos: nat)
    requires Sound(b)
    ensures PrefixRemoved(b, side, pos) == SinglesRemoved(b, side, pos + 1)
    decreases pos
  {
    hide Removed, PrefixRemoved, Sound;
    if b.Vec(side) == [] {
      RemoveOutOfRange(b, side, 0);
      PrefixOfEmpty(b, side, pos);
      if pos > 0 {
        PrefixIsRepeatedSingle(b, side, pos - 1);
        PrefixOfEmpty(b, side, pos - 1);
      }
    } else {
      PrefixPeelsOne(b, side, pos);
      RemovedSound(b, side, 0);
      if pos > 0 {
        PrefixIsRepeatedSingle(Removed(b, side, 0), side, pos - 1);
      }
    }
  }

  /** An update is a single delete at the old position followed by an add, in range or not. */
  lemma UpdateIsDeleteThenAdd(b: BookState, oldPos: u32, e: BookEntry)
    ensures Applied(b, Update(oldPos, e)) == Applied(Applied(b, Delete(Single(e.side, oldPos))), Add(e))
  {
    if oldPos < |b.Vec(e.side)| {
      MovedIsRemovedInserted(b, oldPos, e);
    }
  }

  lemma MovedIsRemovedInserted(b: BookState, oldPos: nat, e: BookEntry)
    requires oldPos < |b.Vec(e.side)|
    ensures Moved(b, oldPos, e) == Inserted(Removed(b, e.side, oldPos), e)
  {
    hide Shifted, IdOf;
    RemovedVecs(b, e.side, oldPos);
    var vec := Removed(b, e.side, oldPos).Vec(e.side);
    assert vec[..|vec|] + [e] + vec[|vec|..] == vec + [e];
  }

  /** Where an update takes the entries it does not replace: those between the old and the new
      position by one, and no others. */
  function Displaced(slot: Slot, side: Side, from: nat, to: nat): Slot {
    if slot.side != side then slot
    else if from < slot.pos <= to then Slot(side, slot.pos - 1)
    else if to <= slot.pos < from then Slot(side, slot.pos + 1)
    else slot
  }

  /** The net effect of an in-range update on a sound book's index, in one pass. */
  lemma UpdateDisplaces(b: BookState, oldPos: u32, e: BookEntry)
    requires Sound(b) && oldPos < |b.Vec(e.side)|
    ensures var index := Applied(b, Update(oldPos, e)).index;
            var gone := IdOf(b.Vec(e.side)[oldPos]);
            var to := Min(e.position, |b.Vec(e.side)| - 1);
            && index.Keys == b.index.Keys - gone + IdOf(e)
            && (e.orderId.Some? ==> index[e.orderId.value] == Slot(e.side, to))
            && forall id :: id in b.index && id !in gone && id !in IdOf(e) ==>
                 index[id] == Displaced(b.index[id], e.side, oldPos, to)
  {
    hide Applied, Removed, Inserted, Moved, Shifted, NoneSkipped, Sound, IdOf, Survivors, Displaced;
    var gone := IdOf(b.Vec(e.side)[oldPos]);
    UpdateParts(b, oldPos, e);
    forall id | id in b.index && id !in gone && id !in IdOf(e)
      ensures Applied(b, Update(oldPos, e)).index[id]
           == Displaced(b.index[id], e.side, oldPos, Min(e.position, |b.Vec(e.side)| - 1))
    {
      UpdateDisplacesOne(b, oldPos, e, id);
    }
  }

  lemma UpdateParts(b: BookState, oldPos: u32, e: BookEntry)
    requires Sound(b) && oldPos < |b.Vec(e.side)|
    ensures var index := Applied(b, Update(oldPos, e)).index;
            && index.Keys == b.index.Keys - IdOf(b.Vec(e.side)[oldPos]) + IdOf(e)
            && (e.orderId.Some? ==> index[e.orderId.value] == Slot(e.side, Min(e.position, |b.Vec(e.side)| - 1)))
  {
    hide Removed, Inserted, Moved, Shifted, NoneSkipped, Sound;
    MovedIsRemovedInserted(b, oldPos, e);
    RemovedIndex(b, e.side, oldPos);
    RemovedVecs(b, e.side, oldPos);
    InsertedParts(Removed(b, e.side, oldPos), e);
  }

  lemma UpdateDisplacesOne(b: BookState, oldPos: u32, e: BookEntry, id: Bytes)
    requires Sound(b) && oldPos < |b.Vec(e.side)|
    requires id in b.index && id !in IdOf(b.Vec(e.side)[oldPos]) && id !in IdOf(e)
    requires id in Applied(b, Update(oldPos, e)).index
    ensures Applied(b, Update(oldPos, e)).index[id]
         == Displaced(b.index[id], e.side, oldPos, Min(e.position, |b.Vec(e.side)| - 1))
  {
    hide Removed, Inserted, Moved, Shifted, NoneSkipped, Sound;
    MovedIsRemovedInserted(b, oldPos, e);
    RemovedIndex(b, e.side, oldPos);
    RemovedVecs(b, e.side, oldPos);
    RemovedSound(b, e.side, oldPos);
    InsertedIndex(Removed(b, e.side, oldPos), e);
  }

  lemma SoundPoints(b: BookState, id: Bytes)
    requires Sound(b) && id in b.index
    ensures Points(b, id, b.index[id])
  {}

  lemma PointsNowhere(b: BookState, id: Bytes, slot: Slot)
    requires b.bids == [] && b.asks == []
    ensures !Points(b, id, slot)
  {}

  lemma SoundEmptyBook(b: BookState)
    requires Sound(b) && b.bids == [] && b.asks == []
    ensures b.index == map[]
  {
    hide Sound, Points;
    forall id ensures id !in b.index {
      if id in b.index {
        SoundPoints(b, id);
        PointsNowhere(b, id, b.index[id]);
      }
    }
  }

  /** Clearing the book is two prefix deletes that reach the end of both sides. */
  lemma ClearIsTwoPrefixes(b: BookState, p: u32, q: u32)
    requires Sound(b) && p + 1 >= |b.bids| && q + 1 >= |b.asks|
    ensures Applied(b, Delete(ClearAll))
         == Applied(Applied(b, Delete(PrefixInclusive(Buy, p))), Delete(PrefixInclusive(Sell, q)))
  {
    var b1 := PrefixRemoved(b, Buy, p);
    var b2 := PrefixRemoved(b1, Sell, q);
    PrefixRemovedSound(b, Buy, p);
    PrefixRemovedSound(b1, Sell, q);
    SoundEmptyBook(b2);
  }

  // ----- exactness: arriving ids are new -----

  /** The index is the inverse of the two vectors. */
  ghost predicate Exact(b: BookState) {
    forall id, slot: Slot :: (id in b.index && b.index[id] == slot) <==> Points(b, id, slot)
  }

  ghost predicate Carries(b: BookState, side: Side, i: nat, id: Bytes) {
    i < |b.Vec(side)| && b.Vec(side)[i].orderId == Some(id)
  }

  /** The id an operation brings is not in the book, save at the position an update replaces. */
  ghost predicate ArrivalIsNew(b: BookState, op: BookOp) {
    match op
    case Add(e) =>
      e.orderId.Some? ==> forall side, i :: !Carries(b, side, i, e.orderId.value)
    case Update(oldPos, e) =>
      e.orderId.Some? ==>
        forall side, i :: Carries(b, side, i, e.orderId.value) ==> side == e.side && i == oldPos
    case _ => true
  }

  lemma ExactIsSound(b: BookState)
    requires Exact(b)
    ensures Sound(b)
  {
    forall id | id in b.index ensures Points(b, id, b.index[id]) {}
  }

  lemma RemovedExact(b: BookState, side: Side, pos: nat)
    requires Exact(b)
    ensures Exact(Removed(b, side, pos))
  {
    ExactIsSound(b);
    if pos < |b.Vec(side)| {
      RemovedSound(b, side, pos);
      RemovedIndex(b, side, pos);
      RemovedVecs(b, side, pos);
      var b' := Removed(b, side, pos);
      hide Removed, Shifted;
      forall id, slot: Slot | Points(b', id, slot)
        ensures id in b'.index && b'.index[id] == slot
      {
        var was: Slot := if slot.side == side && slot.pos >= pos then Slot(side, slot.pos + 1) else slot;
        assert Points(b, id, was);
        assert b.Vec(side)[pos].orderId == Some(id) ==> Points(b, id, Slot(side, pos));
      }
    }
  }

  lemma PrefixRemovedExact(b: BookState, side: Side, pos: nat)
    requires Exact(b)
    ensures Exact(PrefixRemoved(b, side, pos))
  {
    hide PrefixRemoved, Shifted, Ids;
    ExactIsSound(b);
    PrefixRemovedSound(b, side, pos);
    PrefixRemovedIndex(b, side, pos);
    PrefixRemovedVecs(b, side, pos);
    var b' := PrefixRemoved(b, side, pos);
    var vec := b.Vec(side);
    var end := Min(pos + 1, |vec|);
    forall id, slot: Slot | Points(b', id, slot)
      ensures id in b'.index && b'.index[id] == slot
    {
      var was: Slot := if slot.side == side then Slot(side, slot.pos + end) else slot;
      assert Points(b, id, was);
      InIds(vec[..end], id);
      assert forall j: nat :: j < end && vec[..end][j].orderId == Some(id) ==> Points(b, id, Slot(side, j));
      assert id !in Ids(vec[..end]);
    }
  }

  lemma InsertedExactIfNew(b: BookState, e: BookEntry)
    requires Exact(b) && ArrivalIsNew(b, Add(e))
    ensures Exact(Inserted(b, e))
  {
    ExactIsSound(b);
    InsertedSound(b, e);
    var b' := Inserted(b, e);
    forall id, slot: Slot | Points(b', id, slot)
      ensures id in b'.index && b'.index[id] == slot
    {
      InsertedSlot(b, e, id, slot);
    }
  }

  lemma InsertedSlot(b: BookState, e: BookEntry, id: Bytes, slot: Slot)
    requires Exact(b) && ArrivalIsNew(b, Add(e)) && Points(Inserted(b, e), id, slot)
    ensures id in Inserted(b, e).index && Inserted(b, e).index[id] == slot
  {
    hide Inserted, Shifted, Sound;
    ExactIsSound(b);
    InsertedParts(b, e);
    InsertedIndex(b, e);
    var p := Min(e.position, |b.Vec(e.side)|);
    if slot == Slot(e.side, p) {
      assert e.orderId == Some(id);
    } else {
      var was: Slot := if slot.side == e.side && slot.pos > p then Slot(e.side, slot.pos - 1) else slot;
      assert Points(b, id, was);
      assert Carries(b, was.side, was.pos, id);
    }
  }

  lemma InsertedExactOnlyIfNew(b: BookState, e: BookEntry)
    requires Exact(Inserted(b, e))
    ensures ArrivalIsNew(b, Add(e))
  {
    hide Inserted;
    InsertedParts(b, e);
    var b' := Inserted(b, e);
    var p := Min(e.position, |b.Vec(e.side)|);
    if e.orderId.Some? {
      var id := e.orderId.value;
      assert Points(b', id, Slot(e.side, p));
      forall side, i: nat ensures !Carries(b, side, i, id) {
        var now: Slot := if side == e.side && i >= p then Slot(side, i + 1) else Slot(side, i);
        assert Carries(b, side, i, id) ==> Points(b', id, now);
        assert now != Slot(e.side, p);
      }
    }
  }

  lemma NewAfterRemoval(b: BookState, oldPos: u32, e: BookEntry)
    requires oldPos < |b.Vec(e.side)|
    ensures ArrivalIsNew(b, Update(oldPos, e)) <==> ArrivalIsNew(Removed(b, e.side, oldPos), Add(e))
  {
    if e.orderId.Some? {
      var id := e.orderId.value;
      RemovedVecs(b, e.side, oldPos);
      var b' := Removed(b, e.side, oldPos);
      hide Removed;
      if ArrivalIsNew(b, Update(oldPos, e)) {
        forall side, i: nat ensures !Carries(b', side, i, id) {
          var j: nat := if side == e.side && i >= oldPos then i + 1 else i;
          assert Carries(b', side, i, id) ==> Carries(b, side, j, id);
        }
      }
      if ArrivalIsNew(b', Add(e)) {
        forall side, i: nat | side != e.side || i != oldPos ensures !Carries(b, side, i, id) {
          var j: nat := if side == e.side && i > oldPos then i - 1 else i;
          assert Carries(b, side, i, id) ==> Carries(b', side, j, id);
        }
      }
    }
  }

  /** An exact index stays exact under an operation if and only if the arriving id is new. */
  lemma AppliedExactIffNew(b: BookState, op: BookOp)
    requires Exact(b)
    ensures Exact(Applied(b, op)) <==> ArrivalIsNew(b, op)
  {
    match op
    case Add(e) =>
      if ArrivalIsNew(b, op) { InsertedExactIfNew(b, e); }
      if Exact(Inserted(b, e)) { InsertedExactOnlyIfNew(b, e); }
    case Update(oldPos, e) =>
      if oldPos >= |b.Vec(e.side)| {
        assert ArrivalIsNew(b, op) <==> ArrivalIsNew(b, Add(e));
        if ArrivalIsNew(b, op) { InsertedExactIfNew(b, e); }
        if Exact(Inserted(b, e)) { InsertedExactOnlyIfNew(b, e); }
      } else {
        var b' := Removed(b, e.side, oldPos);
        MovedIsRemovedInserted(b, oldPos, e);
        RemovedExact(b, e.side, oldPos);
        NewAfterRemoval(b, oldPos, e);
        if ArrivalIsNew(b, op) { InsertedExactIfNew(b', e); }
        if Exact(Inserted(b', e)) { InsertedExactOnlyIfNew(b', e); }
      }
    case Delete(Single(side, pos)) => RemovedExact(b, side, pos);
    case Delete(PrefixInclusive(side, pos)) => PrefixRemovedExact(b, side, pos);
    case Delete(ClearAll) =>
    case EndOfInitial => assert forall id, slot :: Points(b, id, slot) <==> Points(Applied(b, op), id, slot);
  }

  ghost predicate ArrivalsAreNew(b: BookState, ops: seq<BookOp>) {
    forall k :: 0 <= k < |ops| ==> ArrivalIsNew(AppliedAll(b, ops[..k]), ops[k])
  }

  lemma {:induction false} RunsOfNewIdsAreExact(ops: seq<BookOp>)
    requires ArrivalsAreNew(EMPTY, ops)
    ensures Exact(AppliedAll(EMPTY, ops))
  {
    if ops != [] {
      var front := ops[..|ops| - 1];
      forall k | 0 <= k < |front| ensures ArrivalIsNew(AppliedAll(EMPTY, front[..k]), front[k]) {
        assert front[..k] == ops[..k];
      }
      RunsOfNewIdsAreExact(front);
      AppliedExactIffNew(AppliedAll(EMPTY, front), ops[|ops| - 1]);
    }
  }

  /** A duplicate is within reach: the same id added on both sides of an empty book. The index is then
      sound but knows only the second entry. */
  lemma DuplicateHidesFirst(id: Bytes, bid: BookEntry, ask: BookEntry)
    requires bid.side.Buy? && ask.side.Sell? && bid.orderId == ask.orderId == Some(id)
    ensures var b := AppliedAll(EMPTY, [Add(bid), Add(ask)]);
            && b.bids == [bid] && b.asks == [ask] && b.index == map[id := Slot(Sell, 0)]
            && Sound(b) && !Exact(b)
  {
    hide Inserted, Sound, Exact;
    assert [Add(bid), Add(ask)][..1] == [Add(bid)] && [Add(bid)][..0] == [];
    FirstOfSide(EMPTY, bid, id);
    var b1 := Inserted(EMPTY, bid);
    FirstOfSide(b1, ask, id);
    var b := Inserted(b1, ask);
    assert AppliedAll(EMPTY, [Add(bid)]) == b1;
    assert AppliedAll(EMPTY, [Add(bid), Add(ask)]) == b;
    OneOfTwoKnown(b, id);
  }

  lemma FirstOfSide(b: BookState, e: BookEntry, id: Bytes)
    requires b.Vec(e.side) == [] && e.orderId == Some(id)
    ensures Inserted(b, e) == b.WithVec(e.side, [e]).(index := b.index[id := Slot(e.side, 0)])
  {
    assert b.Vec(e.side)[..0] + [e] + b.Vec(e.side)[0..] == [e];
  }

  lemma OneOfTwoKnown(b: BookState, id: Bytes)
    requires b.index == map[id := Slot(Sell, 0)]
    requires |b.bids| == |b.asks| == 1 && b.bids[0].orderId == b.asks[0].orderId == Some(id)
    ensures Sound(b) && !Exact(b)
  {
    assert Points(b, id, Slot(Buy, 0));
  }

  /** The vectors determine an exact index, so nothing else about its history matters. */
  lemma ExactIndexIsUnique(a: BookState, b: BookState)
    requires Exact(a) && Exact(b) && a.bids == b.bids && a.asks == b.asks
    ensures a.index == b.index
  {
    forall id ensures id in a.index <==> id in b.index {
      if id in a.index { assert Points(a, id, a.index[id]) && Points(b, id, a.index[id]); }
      if id in b.index { assert Points(b, id, b.index[id]) && Points(a, id, b.index[id]); }
    }
    forall id | id in a.index ensures a.index[id] == b.index[id] {
      assert Points(a, id, a.index[id]) && Points(b, id, a.index[id]);
    }
  }

  // ----- the vectors alone: positional semantics with clamped inserts -----

  function Splice(vec: seq<BookEntry>, from: nat, to: nat, inserted: seq<BookEntry>): seq<BookEntry> {
    var f := Min(from, |vec|);
    var t := Min(to, |vec|);
    if f <= t then vec[..f] + inserted + vec[t..] else vec
  }

  /** What one operation does to one side, ids ignored. */
  function SideAfter(vec: seq<BookEntry>, side: Side, op: BookOp): seq<BookEntry> {
    match op
    case Add(e) => if e.side == side then Splice(vec, e.position, e.position, [e]) else vec
    case Update(oldPos, e) =>
      if e.side != side then vec
      else
        var rest := Splice(vec, oldPos, oldPos + 1, []);
        Splice(rest, e.position, e.position, [e])
    case Delete(Single(s, pos)) => if s == side then Splice(vec, pos, pos + 1, []) else vec
    case Delete(PrefixInclusive(s, pos)) => if s == side then Splice(vec, 0, pos + 1, []) else vec
    case Delete(ClearAll) => []
    case EndOfInitial => vec
  }

  lemma VectorsArePositional(b: BookState, op: BookOp, side: Side)
    ensures Applied(b, op).Vec(side) == SideAfter(b.Vec(side), side, op)
  {
    hide Inserted, Removed, PrefixRemoved, Splice;
    match op
    case Add(e) => InsertIsSplice(b, e, side);
    case Update(oldPos, e) => UpdateIsSplices(b, oldPos, e, side);
    case Delete(Single(s, pos)) => RemoveIsSplice(b, s, pos, side);
    case Delete(PrefixInclusive(s, pos)) => PrefixIsSplice(b, s, pos, side);
    case Delete(ClearAll) =>
    case EndOfInitial =>
  }

  lemma PrefixIsSplice(b: BookState, s: Side, pos: nat, side: Side)
    ensures PrefixRemoved(b, s, pos).Vec(side)
         == if s == side then Splice(b.Vec(side), 0, pos + 1, []) else b.Vec(side)
  {
    hide PrefixRemoved;
    PrefixRemovedVecs(b, s, pos);
  }

  lemma UpdateIsSplices(b: BookState, oldPos: u32, e: BookEntry, side: Side)
    ensures Applied(b, Update(oldPos, e)).Vec(side) == SideAfter(b.Vec(side), side, Update(oldPos, e))
  {
    hide Removed, Inserted, Splice;
    UpdateIsDeleteThenAdd(b, oldPos, e);
    RemoveIsSplice(b, e.side, oldPos, side);
    InsertIsSplice(Removed(b, e.side, oldPos), e, side);
  }

  lemma InsertIsSplice(b: BookState, e: BookEntry, side: Side)
    ensures Inserted(b, e).Vec(side)
         == if e.side == side then Splice(b.Vec(side), e.position, e.position, [e]) else b.Vec(side)
  {
    hide Inserted;
    InsertedParts(b, e);
  }

  lemma RemoveIsSplice(b: BookState, s: Side, pos: nat, side: Side)
    ensures Removed(b, s, pos).Vec(side)
         == if s == side then Splice(b.Vec(side), pos, pos + 1, []) else b.Vec(side)
  {
    if pos < |b.Vec(s)| { RemovedVecs(b, s, pos); }
    SpliceOne(b.Vec(side), pos);
  }

  lemma SpliceOne(vec: seq<BookEntry>, pos: nat)
    ensures Splice(vec, pos, pos + 1, []) == if pos < |vec| then vec[..pos] + vec[pos + 1..] else vec
  {}

  // ----- the struct -----

  class OrderBook {
    var bids: seq<BookEntry>
    var asks: seq<BookEntry>
    var byOrderId: map<Bytes, Slot>
    var initialised: bool

    ghost function State(): BookState
      reads this
    {
      BookState(bids, asks, byOrderId, initialised)
    }

    constructor ()
      ensures State() == EMPTY
    {
      bids, asks, byOrderId, initialised := [], [], map[], false;
    }

    method Apply(op: BookOp) returns (observable: bool)
      modifies this
      ensures State() == Applied(old(State()), op)
      ensures observable == initialised
    {
      match op {
        case Add(e) => AddEntry(e);
        case Update(oldPos, e) => UpdateEntry(oldPos, e);
        case Delete(d) => DeleteEntries(d);
        case EndOfInitial => initialised := true;
      }
      observable := initialised;
    }

    function Side(side: Side): seq<BookEntry>
      reads this
    {
      if side.Buy? then bids else asks
    }

    method SetSide(side: Side, vec: seq<BookEntry>)
      modifies this`bids, this`asks
      ensures State() == old(State()).WithVec(side, vec)
    {
      if side.Buy? { bids := vec; } else { asks := vec; }
    }

    method AddEntry(e: BookEntry)
      modifies this
      ensures State() == Inserted(old(State()), e)
    {
      var pos := e.position;
      var vec := Side(e.side);
      if pos >= |vec| {
        SetSide(e.side, vec + [e]);
      } else {
        SetSide(e.side, vec[..pos] + [e] + vec[pos..]);
        ShiftIndicesAfter(e.side, pos, 1);
      }
      if e.orderId.Some? {
        var idx := Min(pos, |Side(e.side)| - 1);
        byOrderId := byOrderId[e.orderId.value := Slot(e.side, idx)];
      }
      assert vec[..|vec|] + [e] + vec[|vec|..] == vec + [e];
    }

    method UpdateEntry(oldPos: u32, e: BookEntry)
      modifies this
      ensures State() == Applied(old(State()), Update(oldPos, e))
    {
      var newPos := e.position;
      if oldPos >= |Side(e.side)| {
        AddEntry(e);
        return;
      }
      RemoveAt(e.side, oldPos);
      var vec := Side(e.side);
      if newPos >= |vec| {
        SetSide(e.side, vec + [e]);
      } else {
        SetSide(e.side, vec[..newPos] + [e] + vec[newPos..]);
        ShiftIndicesAfter(e.side, newPos, 1);
      }
      if e.orderId.Some? {
        var finalPos := Min(newPos, |Side(e.side)| - 1);
        byOrderId := byOrderId[e.orderId.value := Slot(e.side, finalPos)];
      }
    }

    /** The removal that `update` and `delete` both spell out: the vector, the shift, the id. */
    method RemoveAt(side: Side, pos: nat)
      requires pos < |Side(side)|
      modifies this
      ensures State() == Removed(old(State()), side, pos)
    {
      var vec := Side(side);
      var removed := vec[pos];
      SetSide(side, vec[..pos] + vec[pos + 1..]);
      ShiftIndicesAfter(side, pos, -1);
      if removed.orderId.Some? {
        byOrderId := byOrderId - {removed.orderId.value};
      }
    }

    method DeleteEntries(d: BookDelete)
      modifies this
      ensures State() == Applied(old(State()), Delete(d))
    {
      hide Shifted, Ids;
      match d
      case Single(side, pos) =>
        if pos < |Side(side)| {
          RemoveAt(side, pos);
        }
      case PrefixInclusive(side, pos) =>
        var vec := Side(side);
        var end := Min(pos + 1, |vec|);
        var drained := vec[..end];
        SetSide(side, vec[end..]);
        RemoveIds(drained);
        ShiftIndicesAfter(side, 0, -(end as int));
      case ClearAll =>
        bids := [];
        asks := [];
        byOrderId := map[];
    }

    /** The loop of the prefix branch over the drained entries. */
    method RemoveIds(drained: seq<BookEntry>)
      modifies this`byOrderId
      ensures byOrderId == old(byOrderId) - Ids(drained)
    {
      assert drained[0..] == drained;
      for i := 0 to |drained|
        invariant byOrderId - Ids(drained[i..]) == old(byOrderId) - Ids(drained)
      {
        if drained[i].orderId.Some? {
          byOrderId := byOrderId - {drained[i].orderId.value};
        }
        assert drained[i..][1..] == drained[i + 1..];
      }
    }

    /** `values_mut` visits every entry once, in no particular order. */
    method ShiftIndicesAfter(side: Side, from: nat, delta: int)
      modifies this`byOrderId
      ensures byOrderId == Shifted(old(byOrderId), side, from, delta)
    {
      var rest := byOrderId.Keys;
      while rest != {}
        invariant rest <= byOrderId.Keys == old(byOrderId).Keys
        invariant forall id :: id in rest ==> byOrderId[id] == old(byOrderId)[id]
        invariant forall id :: id in byOrderId && id !in rest ==>
                    byOrderId[id] == ShiftedSlot(old(byOrderId)[id], side, from, delta)
        decreases rest
      {
        var id :| id in rest;
        var slot := byOrderId[id];
        if slot.side == side && slot.pos >= from {
          var moved := slot.pos + delta;
          if moved >= 0 {
            byOrderId := byOrderId[id := Slot(slot.side, moved)];
          }
        }
        rest := rest - {id};
      }
    }
  }
}
