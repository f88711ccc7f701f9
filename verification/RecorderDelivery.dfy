/** The recorder's operations as steps of the delivery protocol. */
module RecorderDelivery {
  import opened CheckPoint
  import opened Ring
  import D = Delivery
  import R = RecorderModel

  // ------------------------------------------------------------------ what is written stays written

  function Written(l: R.Log): seq<Slot> {
    l.committed + l.pending
  }

  function OpSlots(op: R.Op): seq<Slot> {
    match op
    case OpAdd(slot, _) => [slot]
    case OpStart(slot, _) => [slot]
    case OpEnd(slot, _) => [slot]
    case OpEvent(slots) => slots
    case _ => []
  }

  /** An operation that takes nothing back: no `rollback`, and no `commitIfHas` that misses. */
  predicate NoRollback(l: R.Log, op: R.Op) {
    match op
    case OpRollback => false
    case OpCommitIfHas(c) => c in l.kinds
    case _ => true
  }

  /** With a minimum count of at most 1, commits move no slot: the written slots only grow, by the operation's own. */
  lemma WrittenOnlyGrows(l: R.Log, op: R.Op, minCount: nat)
    requires minCount <= 1 && NoRollback(l, op)
    ensures Written(R.LogStep(l, op, minCount)) == Written(l) + OpSlots(op)
  {
    KeepWritten(l, minCount);
    match op {
      case OpStart(slot, c) =>
        assert Written(R.Append(R.Keep(l, minCount), [slot], c)) == Written(R.Keep(l, minCount)) + [slot];
      case OpEnd(slot, c) => KeepWritten(R.Append(l, [slot], c), minCount);
      case _ =>
    }
  }

  lemma KeepWritten(l: R.Log, minCount: nat)
    requires minCount <= 1
    ensures Written(R.Keep(l, minCount)) == Written(l)
  {
  }

  // ------------------------------------------------------------------ stores as protocol steps

  /** `add` stores where the protocol's `Add` stores. */
  lemma AddIsOneStep(r: R.Rec, l: R.Log, slot: Slot, c: R.Category, p: D.Producer)
    requires R.Refines(r, l) && p.cells == r.cells && p.log == Written(l)
    ensures R.Add(r, slot, c).cells == D.ProducerStep(p, D.Add(slot)).cells
    ensures Written(R.Append(l, [slot], c)) == D.ProducerStep(p, D.Add(slot)).log
  {
    WrapOfSum(|l.committed|, |l.pending|, |r.cells|);
  }

  function BodyRun(slots: seq<Slot>, k: nat): seq<D.Action>
    requires 1 <= k <= |slots|
  {
    if k == 1 then [D.BeginEvent(|slots|)] else BodyRun(slots, k - 1) + [D.StoreBody(k - 1, slots[k - 1])]
  }

  /** The stores of one `addEvent`, in the order its constructors make them. */
  function EventRun(slots: seq<Slot>): seq<D.Action>
    requires slots != []
  {
    BodyRun(slots, |slots|) + [D.StoreMeta(slots[0])] + [D.StoreTick(slots[0].tick_)]
  }

  /** The recorder's state with the first `k` slots of an event but its header stored. */
  function PartlyStored(p: D.Producer, slots: seq<Slot>, k: nat): D.Producer
    requires |p.cells| > 0 && 1 <= k <= |slots|
  {
    p.(open := |slots|, high := D.Max(p.high, |p.log| + |slots|), cells := R.PutBody(p.cells, |p.log|, slots, k))
  }

  /** And with all of it stored and finished. */
  function EventStored(p: D.Producer, slots: seq<Slot>): D.Producer
    requires |p.cells| > 0 && slots != []
  {
    D.Producer(R.PutEvent(p.cells, |p.log|, slots), p.log + slots, slots[0].tick_, 0, D.Max(p.high, |p.log| + |slots|))
  }

  function Body(w: D.World, slots: seq<Slot>, k: nat): D.World
    requires |w.p.cells| > 0 && 1 <= k <= |slots|
  {
    D.World(PartlyStored(w.p, slots, k), w.c)
  }

  lemma {:induction false} BodyStep(w: D.World, slots: seq<Slot>, k: nat)
    requires 0 < |slots| <= |w.p.cells| && 1 <= k < |slots|
    ensures D.Enabled(Body(w, slots, k), D.StoreBody(k, slots[k]))
    ensures D.Step(Body(w, slots, k), D.StoreBody(k, slots[k])) == Body(w, slots, k + 1)
  {
  }

  lemma {:induction false} BodyRunStores(w: D.World, slots: seq<Slot>, k: nat)
    requires 0 < |slots| <= |w.p.cells| && 1 <= k <= |slots|
    requires w.p.open == 0 && |w.p.log| + |slots| <= w.c.copied + |w.p.cells|
    ensures D.Reaches(w, BodyRun(slots, k), Body(w, slots, k))
  {
    if k == 1 {
      EventBegun(w, slots, k);
    } else {
      var before, v, a := BodyRun(slots, k - 1), Body(w, slots, k - 1), D.StoreBody(k - 1, slots[k - 1]);
      BodyRunStores(w, slots, k - 1);
      BodyStep(w, slots, k - 1);
      D.Extend(w, before, v, a);
    }
  }

  lemma {:induction false} EventBegun(w: D.World, slots: seq<Slot>, k: nat)
    requires 0 < |slots| <= |w.p.cells| && k == 1
    requires w.p.open == 0 && |w.p.log| + |slots| <= w.c.copied + |w.p.cells|
    ensures D.Reaches(w, BodyRun(slots, k), Body(w, slots, k))
  {
    var begin := D.BeginEvent(|slots|);
    assert [] + [begin] == BodyRun(slots, k);
    BeginStep(w, slots, k);
    D.Extend(w, [], w, begin);
  }

  lemma {:induction false} BeginStep(w: D.World, slots: seq<Slot>, k: nat)
    requires 0 < |slots| <= |w.p.cells| && k == 1
    ensures D.Step(w, D.BeginEvent(|slots|)) == Body(w, slots, k) && D.Reaches(w, [], w)
  {
  }

  lemma PutTwice(cells: seq<Slot>, p: nat, a: Slot, b: Slot)
    requires |cells| > 0
    ensures Put(Put(cells, p, a), p, b) == Put(cells, p, b)
  {
  }

  /** Header words over the old tick, then the tick: the record is finished and is exactly `slots`. */
  lemma HeaderSteps(w: D.World, slots: seq<Slot>, v: D.World)
    requires 0 < |slots| <= |w.p.cells| && v == Body(w, slots, |slots|)
    ensures var m := D.Step(v, D.StoreMeta(slots[0]));
            && At(m.p.cells, |m.p.log|).(tick_ := slots[0].tick_) == slots[0]
            && D.OpenSlots(m.p, slots[0].tick_) == slots
            && D.Step(m, D.StoreTick(slots[0].tick_)) ==
               D.World(EventStored(w.p, slots), w.c)
  {
    var p, header := |w.p.log|, slots[0];
    var stale := header.(tick_ := At(v.p.cells, p).tick_);
    var m := D.Step(v, D.StoreMeta(header));
    assert m.p.cells == Put(v.p.cells, p, stale);
    PutOnlyThere(v.p.cells, p, stale);
    R.PutBodyAt(w.p.cells, p, slots, |slots|);
    assert forall i :: 1 <= i < |slots| ==> At(m.p.cells, p + i) == slots[i];
    assert D.OpenSlots(m.p, header.tick_) == slots;
    PutTwice(v.p.cells, p, stale, header);
  }

  /** One `addEvent` is a legal run of the protocol that finishes exactly the event's slots. */
  lemma EventIsARun(w: D.World, slots: seq<Slot>)
    requires 0 < |slots| <= |w.p.cells| && w.p.open == 0 && |w.p.log| + |slots| <= w.c.copied + |w.p.cells|
    requires RecordSlots(slots[0]) == |slots| && slots[0].tick_ > w.p.last
    ensures D.Reaches(w, EventRun(slots),
              D.World(EventStored(w.p, slots), w.c))
  {
    var v := Body(w, slots, |slots|);
    BodyRunStores(w, slots, |slots|);
    HeaderSteps(w, slots, v);
    var run := BodyRun(slots, |slots|);
    D.Extend(w, run, v, D.StoreMeta(slots[0]));
    D.Extend(w, run + [D.StoreMeta(slots[0])], D.Step(v, D.StoreMeta(slots[0])), D.StoreTick(slots[0].tick_));
  }

  lemma AddEventCells(r: R.Rec, l: R.Log, slots: seq<Slot>)
    requires |r.cells| > 0 && r.start == Wrap(|l.committed|, |r.cells|) && r.count == |l.pending| && slots != []
    ensures R.AddEvent(r, slots).cells == R.PutEvent(r.cells, |l.committed| + |l.pending|, slots)
  {
    R.PutEventShifted(r.cells, |l.committed|, |l.pending|, slots);
  }

  /** And the recorder's own `addEvent` leaves the ring as that run does. */
  lemma AddEventIsThatRun(r: R.Rec, l: R.Log, slots: seq<Slot>, w: D.World, v: D.World)
    requires R.Refines(r, l) && w.p.cells == r.cells && w.p.log == Written(l) && w.p.open == 0
    requires 0 < |slots| <= |r.cells| && |w.p.log| + |slots| <= w.c.copied + |r.cells|
    requires RecordSlots(slots[0]) == |slots| && slots[0].tick_ > w.p.last
    requires v == D.Exec(w, EventRun(slots))
    ensures D.Legal(w, EventRun(slots))
    ensures v.p.cells == R.AddEvent(r, slots).cells && v.p.log == Written(R.Append(l, slots, R.Event)) && v.c == w.c
  {
    EventIsARun(w, slots);
    AddEventCells(r, l, slots);
  }
}
