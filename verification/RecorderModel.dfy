/** What the recorder's operations do to its ring and its counters, and the unbounded log they stand for. */
module RecorderModel {
  import opened Bits
  import opened CheckPoint
  import opened Layout
  import opened Ring

  datatype Category = Default | MD | Order | Strategy | Event

  function Code(c: Category): byte {
    match c
    case Default => 0
    case MD => 1
    case Order => 2
    case Strategy => 3
    case Event => 4
  }

  function CategoryBit(c: Category): bv16 {
    1 << Code(c)
  }

  // ------------------------------------------------------------------ slot layouts

  /** The word `add` packs type, category and literal into. */
  function PackedParts(type_: byte, code: byte, literal: u32): nat {
    Or(Or(type_, code * Pow2(8)), literal * Pow2(32))
  }

  /** Two 64-bit words as they lie in memory. */
  function SlotOfWords(low: nat, high: nat): Slot {
    SlotOf(LittleEndian(low, 8) + LittleEndian(high, 8))
  }

  /** The two halves `add` stores. */
  function PackedSlot(type_: byte, category: Category, literal: u32, tick: Tick): Slot {
    SlotOfWords(PackedParts(type_, Code(category), literal), tick)
  }

  /** The packed word unpacks to the given fields and a zero `reserved_`, so the record is one slot. */
  lemma {:induction false} PackedSlotUnpacks(type_: byte, category: Category, literal: u32, tick: Tick)
    ensures PackedSlot(type_, category, literal, tick) == Slot(type_, Code(category), 0, literal, tick)
    ensures RecordSlots(PackedSlot(type_, category, literal, tick)) == 1
  {
    PackedWord(type_, Code(category), literal);
    UnpackedWord(type_, Code(category), literal, tick, PackedParts(type_, Code(category), literal));
  }

  lemma {:induction false} UnpackedWord(a: byte, b: byte, literal: u32, tick: Tick, parts: nat)
    requires parts == a + b * 256 + literal * 0x1_0000_0000
    ensures SlotOfWords(parts, tick) == Slot(a, b, 0, literal, tick)
  {
    PackedBytes(a, b, literal, parts);
    UnpackedBytes(a, b, literal, tick, LittleEndian(parts, 8) + LittleEndian(tick, 8));
  }

  lemma {:induction false} PackedWord(a: byte, b: byte, literal: u32)
    ensures PackedParts(a, b, literal) == a + b * 256 + literal * 0x1_0000_0000
  {
    assert Pow2(8) == 256 && Pow2(16) == 0x1_0000 && Pow2(24) == 0x100_0000 && Pow2(32) == 0x1_0000_0000;
    OrDisjoint(a, b, 8);
    OrDisjoint(a + b * 256, literal, 32);
  }

  lemma {:induction false} UnpackedBytes(a: byte, b: byte, literal: u32, tick: Tick, bs: seq<byte>)
    requires bs == [a, b, 0, 0] + LittleEndian(literal, 4) + LittleEndian(tick, 8)
    ensures |bs| == SLOT_BYTES && SlotOf(bs) == Slot(a, b, 0, literal, tick)
  {
    assert bs == SlotBytes(Slot(a, b, 0, literal, tick));
    SlotReadsBack(Slot(a, b, 0, literal, tick));
  }

  lemma {:induction false} PackedBytes(a: byte, b: byte, literal: u32, parts: nat)
    requires parts == a + b * 256 + literal * 0x1_0000_0000
    ensures LittleEndian(parts, 8) == [a, b, 0, 0] + LittleEndian(literal, 4)
  {
    FourLowest(a, b, literal, 8);
  }

  lemma {:induction false} FourLowest(a: byte, b: byte, literal: u32, n: nat)
    requires n >= 4
    ensures LittleEndian(a + b * 256 + literal * 0x1_0000_0000, n) == [a, b, 0, 0] + LittleEndian(literal, n - 4)
  {
    var high := 0x1_0000 * literal;
    var v := a + b * 256 + literal * 0x1_0000_0000;
    TwoLowest(a, b, high, v, n);
    TwoLowest(0, 0, literal, high, n - 2);
    assert [a, b] + ([0, 0] + LittleEndian(literal, n - 4)) == [a, b, 0, 0] + LittleEndian(literal, n - 4);
  }

  lemma {:induction false} TwoLowest(a: byte, b: byte, high: nat, v: nat, n: nat)
    requires n >= 2 && v == a + 256 * b + 0x1_0000 * high
    ensures LittleEndian(v, n) == [a, b] + LittleEndian(high, n - 2)
  {
    assert v % 256 == a && v / 256 == b + 256 * high;
    var rest := v / 256;
    assert rest % 256 == b && rest / 256 == high;
    assert LittleEndian(v, n) == [a] + LittleEndian(rest, n - 1);
    assert LittleEndian(rest, n - 1) == [b] + LittleEndian(high, n - 2);
  }

  /** `sizeof(EventCheckPoint<Event>)`: an empty event class adds nothing although its size is 1. */
  function StoredBytes(eventSize: nat, isEmptyClass: bool): nat {
    if isEmptyClass then SLOT_BYTES else SLOT_BYTES + (eventSize + SLOT_BYTES - 1) / SLOT_BYTES * SLOT_BYTES
  }

  /** Slots `addEvent` advances by, in the recorder's 16-bit count. */
  function AdvancedSlots(eventSize: nat, isEmptyClass: bool): nat {
    StoredBytes(eventSize, isEmptyClass) / SLOT_BYTES % 0x1_0000
  }

  /**
   Recorder and server agree on the length of an event record exactly when the event class is not empty
   and its size, in units of 64 KiB, is a multiple of 16 (in particular below 64 KiB).
   */
  lemma {:induction false} FramingAgrees(eventSize: nat, isEmptyClass: bool, header: Slot)
    requires eventSize > 0 && (isEmptyClass ==> eventSize == 1) && header.reserved_ == eventSize % 0x1_0000
    ensures AdvancedSlots(eventSize, isEmptyClass) == RecordSlots(header) <==>
            !isEmptyClass && eventSize / 0x1_0000 % 16 == 0
  {
    if !isEmptyClass {
      var q, r := eventSize / 0x1_0000, eventSize % 0x1_0000;
      var ceil := (r + 15) / 16;
      assert (eventSize + 15) / 16 == 4096 * q + ceil;
      assert StoredBytes(eventSize, false) / 16 == 1 + 4096 * q + ceil;
      assert 4096 * q == 0x1_0000 * (q / 16) + 4096 * (q % 16);
      assert AdvancedSlots(eventSize, false) == (1 + 4096 * (q % 16) + ceil) % 0x1_0000;
    }
  }

  // ------------------------------------------------------------------ the recorder's state

  /** `start` is `start_ - begin`; `count` and `categories` are 16 bits wide. */
  datatype Rec = Rec(cells: seq<Slot>, start: nat, count: nat, categories: bv16, minCount: u16)

  function Zeroed(cap: nat, minCount: u16): Rec {
    Rec(seq(cap, _ => ZERO_SLOT), 0, 0, 0, minCount)
  }

  predicate Has(r: Rec, c: Category) {
    r.categories & CategoryBit(c) != 0
  }

  function Add(r: Rec, slot: Slot, c: Category): Rec
    requires |r.cells| > 0
  {
    r.(cells := Put(r.cells, r.start + r.count, slot),
       count := (r.count + 1) % 0x1_0000,
       categories := r.categories | CategoryBit(c))
  }

  /** The extension slots in ascending order from the second on. */
  function PutBody(cells: seq<Slot>, p: nat, slots: seq<Slot>, k: nat): (r: seq<Slot>)
    requires |cells| > 0 && 1 <= k <= |slots|
    ensures |r| == |cells|
  {
    if k == 1 then cells else Put(PutBody(cells, p, slots, k - 1), p + k - 1, slots[k - 1])
  }

  /** An event's slots, the header last. */
  function PutEvent(cells: seq<Slot>, p: nat, slots: seq<Slot>): seq<Slot>
    requires |cells| > 0 && slots != []
  {
    Put(PutBody(cells, p, slots, |slots|), p, slots[0])
  }

  function AddEvent(r: Rec, slots: seq<Slot>): Rec
    requires |r.cells| > 0 && slots != []
  {
    r.(cells := PutEvent(r.cells, r.start + r.count, slots),
       count := (r.count + |slots| % 0x1_0000) % 0x1_0000,
       categories := r.categories | CategoryBit(Event))
  }

  function Rollback(r: Rec): Rec {
    r.(count := 0, categories := 0)
  }

  function Commit(r: Rec): Rec {
    var moved := if r.count >= r.minCount then r.start + r.count else r.start;
    Rollback(r).(start := if moved >= |r.cells| then moved - |r.cells| else moved)
  }

  function CommitIfHas(r: Rec, c: Category): Rec {
    if Has(r, c) then Commit(r) else Rollback(r)
  }

  // ------------------------------------------------------------------ the log it stands for

  /**
   Slots committed so far and slots pending, with the categories of the pending records. `high` is one
   past the highest position ever written, pending slots later rolled back included.
   */
  datatype Log = Log(committed: seq<Slot>, pending: seq<Slot>, kinds: set<Category>, high: nat)

  datatype Op =
    | OpAdd(slot: Slot, category: Category)
    | OpEvent(slots: seq<Slot>)
    | OpStart(slot: Slot, category: Category)
    | OpEnd(slot: Slot, category: Category)
    | OpCommit
    | OpRollback
    | OpCommitIfHas(category: Category)

  function Append(l: Log, slots: seq<Slot>, c: Category): Log {
    var end := |l.committed| + |l.pending| + |slots|;
    Log(l.committed, l.pending + slots, l.kinds + {c}, if end > l.high then end else l.high)
  }

  function Drop(l: Log): Log {
    l.(pending := [], kinds := {})
  }

  function Keep(l: Log, minCount: nat): Log {
    if |l.pending| >= minCount then Drop(l).(committed := l.committed + l.pending) else Drop(l)
  }

  function LogStep(l: Log, op: Op, minCount: nat): Log {
    match op
    case OpAdd(slot, c) => Append(l, [slot], c)
    case OpEvent(slots) => Append(l, slots, Event)
    case OpStart(slot, c) => Append(Keep(l, minCount), [slot], c)
    case OpEnd(slot, c) => Keep(Append(l, [slot], c), minCount)
    case OpCommit => Keep(l, minCount)
    case OpRollback => Drop(l)
    case OpCommitIfHas(c) => if c in l.kinds then Keep(l, minCount) else Drop(l)
  }

  function RecStep(r: Rec, op: Op): Rec
    requires |r.cells| > 0 && (op.OpEvent? ==> op.slots != [])
  {
    match op
    case OpAdd(slot, c) => Add(r, slot, c)
    case OpEvent(slots) => AddEvent(r, slots)
    case OpStart(slot, c) => Add(Commit(r), slot, c)
    case OpEnd(slot, c) => Commit(Add(r, slot, c))
    case OpCommit => Commit(r)
    case OpRollback => Rollback(r)
    case OpCommitIfHas(c) => CommitIfHas(r, c)
  }

  /** Pending slots must fit the ring and the 16-bit count. */
  predicate Fits(l: Log, n: nat, cap: nat) {
    |l.pending| + n <= cap && |l.pending| + n <= 0xffff
  }

  predicate OpFits(l: Log, op: Op, cap: nat, minCount: nat) {
    match op
    case OpAdd(_, _) => Fits(l, 1, cap)
    case OpEvent(slots) => slots != [] && Fits(l, |slots|, cap)
    case OpStart(_, _) => Fits(Keep(l, minCount), 1, cap)
    case OpEnd(_, _) => Fits(l, 1, cap)
    case _ => true
  }

  ghost predicate CellsHold(cells: seq<Slot>, l: Log)
    requires |cells| > 0
  {
    && (forall i :: 0 <= i < |l.pending| ==> At(cells, |l.committed| + i) == l.pending[i])
    && (forall q :: 0 <= q < |l.committed| && l.high <= q + |cells| ==> At(cells, q) == l.committed[q])
  }

  ghost predicate KindsHold(categories: bv16, kinds: set<Category>) {
    forall c :: categories & CategoryBit(c) != 0 <==> c in kinds
  }

  /** Where the recorder stands and what its cells hold. */
  ghost predicate Placed(cells: seq<Slot>, start: nat, count: nat, l: Log) {
    && |cells| > 0 && Fits(l, 0, |cells|)
    && start == Wrap(|l.committed|, |cells|) && count == |l.pending|
    && |l.committed| + |l.pending| <= l.high
    && CellsHold(cells, l)
  }

  ghost predicate Refines(r: Rec, l: Log) {
    Placed(r.cells, r.start, r.count, l) && KindsHold(r.categories, l.kinds)
  }

  lemma BitJoins(bits: bv16, c: Category, d: Category)
    ensures (bits | CategoryBit(c)) & CategoryBit(d) != 0 <==> bits & CategoryBit(d) != 0 || d == c
  {
  }

  lemma KindJoins(bits: bv16, kinds: set<Category>, c: Category)
    requires KindsHold(bits, kinds)
    ensures KindsHold(bits | CategoryBit(c), kinds + {c})
  {
    forall d
      ensures (bits | CategoryBit(c)) & CategoryBit(d) != 0 <==> d in kinds + {c}
    {
      BitJoins(bits, c, d);
    }
  }

  /** Storing one slot right after the pending ones disturbs nothing the log still promises. */
  lemma PutHolds(cells: seq<Slot>, l: Log, slot: Slot, c: Category)
    requires |cells| > 0 && |l.pending| < |cells| && CellsHold(cells, l)
    ensures CellsHold(Put(cells, |l.committed| + |l.pending|, slot), Append(l, [slot], c))
  {
    PutOnlyThere(cells, |l.committed| + |l.pending|, slot);
  }

  lemma {:induction false} PutBodyAt(cells: seq<Slot>, p: nat, slots: seq<Slot>, k: nat)
    requires |cells| > 0 && 1 <= k <= |slots| <= |cells|
    ensures forall i :: 1 <= i < k ==> At(PutBody(cells, p, slots, k), p + i) == slots[i]
    ensures forall q: nat :: q <= p && p + k <= q + |cells| ==> At(PutBody(cells, p, slots, k), q) == At(cells, q)
  {
    if k > 1 {
      PutBodyAt(cells, p, slots, k - 1);
      PutOnlyThere(PutBody(cells, p, slots, k - 1), p + k - 1, slots[k - 1]);
    }
  }

  /** `stored` is `cells` with `slots` at the positions from `p` on. */
  ghost predicate StoredAt(stored: seq<Slot>, cells: seq<Slot>, p: nat, slots: seq<Slot>)
    requires |cells| > 0 && |stored| == |cells|
  {
    && (forall i :: 0 <= i < |slots| ==> At(stored, p + i) == slots[i])
    && (forall q: nat :: q < p && p + |slots| <= q + |cells| ==> At(stored, q) == At(cells, q))
  }

  lemma PutEventStores(cells: seq<Slot>, p: nat, slots: seq<Slot>)
    requires |cells| > 0 && 0 < |slots| <= |cells|
    ensures StoredAt(PutEvent(cells, p, slots), cells, p, slots)
  {
    PutBodyAt(cells, p, slots, |slots|);
    PutOnlyThere(PutBody(cells, p, slots, |slots|), p, slots[0]);
  }

  lemma StoredHolds(stored: seq<Slot>, cells: seq<Slot>, l: Log, slots: seq<Slot>, c: Category)
    requires |cells| > 0 && |stored| == |cells| && |l.pending| + |slots| <= |cells| && CellsHold(cells, l)
    requires StoredAt(stored, cells, |l.committed| + |l.pending|, slots)
    ensures CellsHold(stored, Append(l, slots, c))
  {
    forall i | 0 <= i < |l.pending| + |slots|
      ensures At(stored, |l.committed| + i) == (l.pending + slots)[i]
    {
      if i >= |l.pending| { assert |l.committed| + i == |l.committed| + |l.pending| + (i - |l.pending|); }
    }
  }

  lemma PutSameCell(cells: seq<Slot>, p: nat, q: nat, s: Slot)
    requires |cells| > 0 && Wrap(p, |cells|) == Wrap(q, |cells|)
    ensures Put(cells, p, s) == Put(cells, q, s)
  {
  }

  /** Storing at the wrapped start is storing at the absolute position. */
  lemma {:induction false} PutBodyShifted(cells: seq<Slot>, base: nat, d: nat, slots: seq<Slot>, k: nat)
    requires |cells| > 0 && 1 <= k <= |slots|
    ensures PutBody(cells, Wrap(base, |cells|) + d, slots, k) == PutBody(cells, base + d, slots, k)
  {
    if k > 1 {
      PutBodyShifted(cells, base, d, slots, k - 1);
      WrapOfSum(base, d + k - 1, |cells|);
      PutSameCell(PutBody(cells, base + d, slots, k - 1), Wrap(base, |cells|) + d + k - 1, base + d + k - 1,
                  slots[k - 1]);
    }
  }

  lemma {:induction false} PutEventShifted(cells: seq<Slot>, base: nat, d: nat, slots: seq<Slot>)
    requires |cells| > 0 && slots != []
    ensures PutEvent(cells, Wrap(base, |cells|) + d, slots) == PutEvent(cells, base + d, slots)
  {
    PutBodyShifted(cells, base, d, slots, |slots|);
    WrapOfSum(base, d, |cells|);
    PutSameCell(PutBody(cells, base + d, slots, |slots|), Wrap(base, |cells|) + d, base + d, slots[0]);
  }

  lemma AddPlaced(cells: seq<Slot>, start: nat, count: nat, l: Log, slot: Slot, c: Category)
    requires Placed(cells, start, count, l) && Fits(l, 1, |cells|)
    ensures Placed(Put(cells, start + count, slot), start, count + 1, Append(l, [slot], c))
  {
    WrapOfSum(|l.committed|, |l.pending|, |cells|);
    PutSameCell(cells, start + count, |l.committed| + |l.pending|, slot);
    PutHolds(cells, l, slot, c);
  }

  lemma AddRefines(r: Rec, l: Log, slot: Slot, c: Category)
    requires Refines(r, l) && Fits(l, 1, |r.cells|)
    ensures Refines(Add(r, slot, c), Append(l, [slot], c))
  {
    AddPlaced(r.cells, r.start, r.count, l, slot, c);
    KindJoins(r.categories, l.kinds, c);
  }

  /** `stored` is the ring after an event at `p`; nothing else about how it was stored is needed. */
  lemma StoredPlaced(cells: seq<Slot>, start: nat, count: nat, l: Log, slots: seq<Slot>, stored: seq<Slot>)
    requires Placed(cells, start, count, l) && slots != [] && Fits(l, |slots|, |cells|)
    requires |stored| == |cells| && StoredAt(stored, cells, |l.committed| + |l.pending|, slots)
    ensures Placed(stored, start, count + |slots|, Append(l, slots, Event))
  {
    StoredHolds(stored, cells, l, slots, Event);
  }

  lemma {:induction false} EventStored(cells: seq<Slot>, base: nat, d: nat, slots: seq<Slot>, here: seq<Slot>,
                                       there: seq<Slot>)
    requires |cells| > 0 && 0 < |slots| <= |cells|
    requires here == PutEvent(cells, Wrap(base, |cells|) + d, slots) && there == PutEvent(cells, base + d, slots)
    ensures here == there && |there| == |cells| && StoredAt(there, cells, base + d, slots)
  {
    PutEventShifted(cells, base, d, slots);
    PutEventStores(cells, base + d, slots);
  }

  lemma EventPlaced(cells: seq<Slot>, start: nat, count: nat, l: Log, slots: seq<Slot>, stored: seq<Slot>)
    requires Placed(cells, start, count, l) && slots != [] && Fits(l, |slots|, |cells|)
    requires stored == PutEvent(cells, start + count, slots)
    ensures Placed(stored, start, count + |slots|, Append(l, slots, Event))
  {
    EventStored(cells, |l.committed|, |l.pending|, slots, stored, PutEvent(cells, |l.committed| + |l.pending|, slots));
    StoredPlaced(cells, start, count, l, slots, stored);
  }

  lemma AddEventRefines(r: Rec, l: Log, slots: seq<Slot>)
    requires Refines(r, l) && slots != [] && Fits(l, |slots|, |r.cells|)
    ensures Refines(AddEvent(r, slots), Append(l, slots, Event))
  {
    EventPlaced(r.cells, r.start, r.count, l, slots, AddEvent(r, slots).cells);
    KindJoins(r.categories, l.kinds, Event);
    SmallCount(r.count, |slots|);
  }

  lemma SmallCount(count: nat, n: nat)
    requires count + n <= 0xffff
    ensures (count + n % 0x1_0000) % 0x1_0000 == count + n
  {
  }

  lemma DropRefines(r: Rec, l: Log)
    requires Refines(r, l)
    ensures Refines(Rollback(r), Drop(l))
  {
  }

  lemma CommitRefines(r: Rec, l: Log)
    requires Refines(r, l)
    ensures Refines(Commit(r), Keep(l, r.minCount))
  {
    var cap := |r.cells|;
    WrapOfSum(|l.committed|, |l.pending|, cap);
    assert r.start + r.count >= cap ==> Wrap(r.start + r.count, cap) == Wrap(r.start + r.count - cap, cap);
  }

  lemma StartRefines(r: Rec, l: Log, slot: Slot, c: Category)
    requires Refines(r, l) && Fits(Keep(l, r.minCount), 1, |r.cells|)
    ensures Refines(Add(Commit(r), slot, c), Append(Keep(l, r.minCount), [slot], c))
  {
    CommitRefines(r, l);
    AddRefines(Commit(r), Keep(l, r.minCount), slot, c);
  }

  lemma EndRefines(r: Rec, l: Log, slot: Slot, c: Category)
    requires Refines(r, l) && Fits(l, 1, |r.cells|)
    ensures Refines(Commit(Add(r, slot, c)), Keep(Append(l, [slot], c), r.minCount))
  {
    AddRefines(r, l, slot, c);
    CommitRefines(Add(r, slot, c), Append(l, [slot], c));
  }

  lemma CommitIfHasRefines(r: Rec, l: Log, c: Category)
    requires Refines(r, l)
    ensures Refines(CommitIfHas(r, c), if c in l.kinds then Keep(l, r.minCount) else Drop(l))
  {
    CommitRefines(r, l);
    DropRefines(r, l);
  }

  lemma StepRefines(r: Rec, l: Log, op: Op)
    requires Refines(r, l) && OpFits(l, op, |r.cells|, r.minCount)
    ensures Refines(RecStep(r, op), LogStep(l, op, r.minCount)) && RecStep(r, op).minCount == r.minCount
  {
    match op {
      case OpAdd(slot, c) => AddRefines(r, l, slot, c);
      case OpEvent(slots) => AddEventRefines(r, l, slots);
      case OpStart(slot, c) => StartRefines(r, l, slot, c);
      case OpEnd(slot, c) => EndRefines(r, l, slot, c);
      case OpCommit => CommitRefines(r, l);
      case OpRollback => DropRefines(r, l);
      case OpCommitIfHas(c) => CommitIfHasRefines(r, l, c);
    }
  }

  // ------------------------------------------------------------------ whole traces

  function LogRun(ops: seq<Op>, minCount: nat): Log
    decreases |ops|
  {
    if ops == [] then Log([], [], {}, 0) else LogStep(LogRun(ops[..|ops| - 1], minCount), ops[|ops| - 1], minCount)
  }

  ghost predicate TraceFits(ops: seq<Op>, cap: nat, minCount: nat)
    decreases |ops|
  {
    ops == [] ||
    (TraceFits(ops[..|ops| - 1], cap, minCount) &&
     OpFits(LogRun(ops[..|ops| - 1], minCount), ops[|ops| - 1], cap, minCount))
  }

  function RecRun(ops: seq<Op>, cap: nat, minCount: u16): (r: Rec)
    requires cap > 0 && forall op :: op in ops && op.OpEvent? ==> op.slots != []
    ensures |r.cells| == cap
    decreases |ops|
  {
    if ops == [] then Zeroed(cap, minCount) else RecStep(RecRun(ops[..|ops| - 1], cap, minCount), ops[|ops| - 1])
  }

  /**
   The ring refines an unbounded log after any trace of operations with any minimum count: where the
   next slot goes, what is pending, what of the committed log is still intact, and which categories
   are pending.
   */
  lemma {:induction false} TraceRefines(ops: seq<Op>, cap: nat, minCount: u16)
    requires cap > 0 && TraceFits(ops, cap, minCount) && forall op :: op in ops && op.OpEvent? ==> op.slots != []
    ensures var r, l := RecRun(ops, cap, minCount), LogRun(ops, minCount);
            && Refines(r, l) && r.minCount == minCount
            && r.start == |l.committed| % cap && r.count == |l.pending|
    decreases |ops|
  {
    if ops != [] {
      TraceRefines(ops[..|ops| - 1], cap, minCount);
      StepRefines(RecRun(ops[..|ops| - 1], cap, minCount), LogRun(ops[..|ops| - 1], minCount), ops[|ops| - 1]);
    }
    WrapIsRemainder(|LogRun(ops, minCount).committed|, cap);
  }

  /** The 16-bit count: one more `add` is counted exactly while fewer than 65535 slots are pending. */
  lemma CountedUpTo65535(r: Rec, l: Log, slot: Slot, c: Category)
    requires Refines(r, l) && |l.pending| < |r.cells|
    ensures Refines(Add(r, slot, c), Append(l, [slot], c)) <==> |l.pending| < 0xffff
  {
    if |l.pending| < 0xffff { AddRefines(r, l, slot, c); }
  }

  // ------------------------------------------------------------------ single stores

  /** One store of a slot the server can tell from no store. */
  datatype Write = Write(at: nat, slot: Slot)

  /** The ring after these stores, one after another. */
  function Replay(cells: seq<Slot>, writes: seq<Write>): (r: seq<Slot>)
    requires |cells| > 0
    ensures |r| == |cells|
    decreases |writes|
  {
    if writes == [] then cells else
    var last := writes[|writes| - 1];
    Put(Replay(cells, writes[..|writes| - 1]), last.at, last.slot)
  }

  lemma {:induction false} ReplayOn(cells: seq<Slot>, writes: seq<Write>, w: Write)
    requires |cells| > 0
    ensures Replay(cells, writes + [w]) == Put(Replay(cells, writes), w.at, w.slot)
  {
    assert (writes + [w])[..|writes|] == writes;
  }

  /** The extension slots in ascending order from the second on. */
  function BodyWrites(p: nat, slots: seq<Slot>, k: nat): (writes: seq<Write>)
    requires 1 <= k <= |slots|
    ensures |writes| == k - 1
  {
    if k == 1 then [] else BodyWrites(p, slots, k - 1) + [Write(p + k - 1, slots[k - 1])]
  }

  /** All stores of one event: its extension slots, the header's words over the old tick, the tick. */
  function EventWrites(p: nat, slots: seq<Slot>, stale: Tick): (writes: seq<Write>)
    requires slots != []
    ensures |writes| == |slots| + 1
  {
    BodyWrites(p, slots, |slots|) + [Write(p, slots[0].(tick_ := stale))] + [Write(p, slots[0])]
  }

  lemma {:induction false} BodyReplay(cells: seq<Slot>, p: nat, slots: seq<Slot>, k: nat)
    requires |cells| > 0 && 1 <= k <= |slots|
    ensures Replay(cells, BodyWrites(p, slots, k)) == PutBody(cells, p, slots, k)
  {
    if k > 1 {
      BodyReplay(cells, p, slots, k - 1);
      ReplayOn(cells, BodyWrites(p, slots, k - 1), Write(p + k - 1, slots[k - 1]));
    }
  }

  lemma {:induction false} BodyPrefix(p: nat, slots: seq<Slot>, k: nat, j: nat)
    requires 1 <= j <= k <= |slots|
    ensures BodyWrites(p, slots, k)[..j - 1] == BodyWrites(p, slots, j)
  {
    if j < k {
      BodyPrefix(p, slots, k - 1, j);
      var fewer := BodyWrites(p, slots, k - 1);
      assert (fewer + [Write(p + k - 1, slots[k - 1])])[..j - 1] == fewer[..j - 1];
    } else {
      assert BodyWrites(p, slots, k)[..k - 1] == BodyWrites(p, slots, k);
    }
  }

  /** What an event's stores have left after the first `j` of them. */
  lemma {:induction false} EventPrefix(p: nat, slots: seq<Slot>, stale: Tick, j: nat)
    requires slots != [] && j <= |slots| + 1
    ensures var writes, body := EventWrites(p, slots, stale), BodyWrites(p, slots, |slots|);
            writes[..j] == if j < |slots| then BodyWrites(p, slots, j + 1)
                           else if j == |slots| then body + [Write(p, slots[0].(tick_ := stale))]
                           else writes
  {
    var body := BodyWrites(p, slots, |slots|);
    if j < |slots| {
      BodyPrefix(p, slots, |slots|, j + 1);
      assert EventWrites(p, slots, stale)[..j] == body[..j];
    }
  }

  lemma {:induction false} EventReplay(cells: seq<Slot>, p: nat, slots: seq<Slot>, stale: Tick)
    requires |cells| > 0 && slots != []
    ensures Replay(cells, EventWrites(p, slots, stale)) == PutEvent(cells, p, slots)
  {
    var body, meta := BodyWrites(p, slots, |slots|), Write(p, slots[0].(tick_ := stale));
    BodyReplay(cells, p, slots, |slots|);
    ReplayOn(cells, body, meta);
    ReplayOn(cells, body + [meta], Write(p, slots[0]));
  }

  lemma {:induction false} BodyKeepsHeader(cells: seq<Slot>, p: nat, slots: seq<Slot>)
    requires 0 < |slots| <= |cells|
    ensures At(PutBody(cells, p, slots, |slots|), p) == At(cells, p)
  {
    PutBodyAt(cells, p, slots, |slots|);
  }

  /** Until its last store an event shows the tick that was there before. */
  lemma {:induction false} TickComesLast(cells: seq<Slot>, p: nat, slots: seq<Slot>, stale: Tick, j: nat)
    requires |cells| > 0 && 0 < |slots| <= |cells| && stale == At(cells, p).tick_ && j <= |slots|
    ensures At(Replay(cells, EventWrites(p, slots, stale)[..j]), p).tick_ == stale
  {
    EventPrefix(p, slots, stale, j);
    if j < |slots| {
      BodyReplay(cells, p, slots, j + 1);
      PutBodyAt(cells, p, slots, j + 1);
    } else {
      ReplayOn(cells, BodyWrites(p, slots, |slots|), Write(p, slots[0].(tick_ := stale)));
    }
  }

  /**
   An event stored at `p` by these stores: before the last of them the header's cell shows the tick that was
   there, however many have been made, and after it every slot of the event is in place.
   */
  ghost predicate FinishedLast(before: seq<Slot>, after: seq<Slot>, p: nat, slots: seq<Slot>, stores: seq<Write>)
    requires |before| > 0
  {
    && |after| == |before| && after == Replay(before, stores)
    && (forall j :: 0 <= j < |stores| ==> At(Replay(before, stores[..j]), p).tick_ == At(before, p).tick_)
    && (forall i :: 0 <= i < |slots| ==> At(after, p + i) == slots[i])
  }

  lemma {:induction false} EventShows(cells: seq<Slot>, p: nat, slots: seq<Slot>, stale: Tick)
    requires 0 < |slots| <= |cells| && stale == At(cells, p).tick_
    ensures FinishedLast(cells, PutEvent(cells, p, slots), p, slots, EventWrites(p, slots, stale))
  {
    EventReplay(cells, p, slots, stale);
    PutEventStores(cells, p, slots);
    forall j | 0 <= j < |slots| + 1
      ensures At(Replay(cells, EventWrites(p, slots, stale)[..j]), p).tick_ == stale
    {
      TickComesLast(cells, p, slots, stale, j);
    }
  }

  /** Stores that fall into the same cells leave the same ring. */
  lemma {:induction false} ReplaySame(cells: seq<Slot>, a: seq<Write>, b: seq<Write>)
    requires |cells| > 0 && |a| == |b|
    requires forall i :: 0 <= i < |a| ==> a[i].slot == b[i].slot && Wrap(a[i].at, |cells|) == Wrap(b[i].at, |cells|)
    ensures Replay(cells, a) == Replay(cells, b)
    decreases |a|
  {
    if a != [] { ReplaySame(cells, a[..|a| - 1], b[..|b| - 1]); }
  }

  lemma {:induction false} WritesShifted(cap: nat, p: nat, q: nat, slots: seq<Slot>, k: nat, i: nat)
    requires cap > 0 && Wrap(p, cap) == Wrap(q, cap) && 1 <= k <= |slots| && i < k - 1
    ensures var a, b := BodyWrites(p, slots, k)[i], BodyWrites(q, slots, k)[i];
            a.slot == b.slot && Wrap(a.at, cap) == Wrap(b.at, cap)
  {
    if i < k - 2 {
      WritesShifted(cap, p, q, slots, k - 1, i);
    } else {
      WrapOfSum(p, k - 1, cap);
      WrapOfSum(q, k - 1, cap);
    }
  }

  /** An event stored at two positions of one cell leaves the same ring at every store. */
  lemma {:induction false} EventWritesShifted(cells: seq<Slot>, p: nat, q: nat, slots: seq<Slot>, stale: Tick, j: nat)
    requires |cells| > 0 && slots != [] && Wrap(p, |cells|) == Wrap(q, |cells|) && j <= |slots| + 1
    ensures Replay(cells, EventWrites(p, slots, stale)[..j]) == Replay(cells, EventWrites(q, slots, stale)[..j])
  {
    var a, b := EventWrites(p, slots, stale)[..j], EventWrites(q, slots, stale)[..j];
    forall i | 0 <= i < j
      ensures a[i].slot == b[i].slot && Wrap(a[i].at, |cells|) == Wrap(b[i].at, |cells|)
    {
      if i < |slots| - 1 {
        assert a[i] == BodyWrites(p, slots, |slots|)[i] && b[i] == BodyWrites(q, slots, |slots|)[i];
        WritesShifted(|cells|, p, q, slots, |slots|, i);
      }
    }
    ReplaySame(cells, a, b);
  }

  // ------------------------------------------------------------------ what opens and closes a recording

  /** After `start` exactly its own record is pending, whatever was before; after `end` and `rollback` none is. */
  lemma BracketsLeavePending(r: Rec, l: Log, slot: Slot, c: Category, d: Category)
    requires Refines(r, l)
    ensures Fits(Keep(l, r.minCount), 1, |r.cells|) ==>
      RecStep(r, OpStart(slot, c)).count == 1 && (Has(RecStep(r, OpStart(slot, c)), d) <==> d == c)
    ensures RecStep(r, OpEnd(slot, c)).count == 0 && !Has(RecStep(r, OpEnd(slot, c)), d)
    ensures RecStep(r, OpRollback).count == 0 && !Has(RecStep(r, OpRollback), d)
    ensures RecStep(r, OpRollback).start == r.start && RecStep(r, OpRollback).cells == r.cells
  {
    if Fits(Keep(l, r.minCount), 1, |r.cells|) { StartRefines(r, l, slot, c); }
  }

  /** A stored event is its header and as few slots more as its own bytes fit in. */
  lemma StoredIsRoundedUp(eventSize: nat, isEmptyClass: bool)
    ensures StoredBytes(eventSize, isEmptyClass) % 16 == 0
    ensures !isEmptyClass ==> 16 + eventSize <= StoredBytes(eventSize, isEmptyClass) < 32 + eventSize
    ensures isEmptyClass ==> StoredBytes(eventSize, isEmptyClass) == 16
  {
  }

  /** The categories by their numbers, each in a bit of its own. */
  lemma CategoryNumbers(c: Category, d: Category)
    ensures Code(Default) == 0 && Code(MD) == 1 && Code(Order) == 2 && Code(Strategy) == 3 && Code(Event) == 4
    ensures CategoryBit(c) & CategoryBit(d) != 0 <==> c == d
  {
  }

  /** A commit moves the start past the pending slots when they are enough, else leaves it; nothing stays pending. */
  lemma CommitOutcome(r: Rec, l: Log, d: Category)
    requires Refines(r, l)
    ensures Commit(r).start == (r.start + if r.count >= r.minCount then r.count else 0) % |r.cells|
    ensures Commit(r).count == 0 && !Has(Commit(r), d) && Commit(r).cells == r.cells
  {
    WrapIsRemainder(r.start + if r.count >= r.minCount then r.count else 0, |r.cells|);
  }
}
