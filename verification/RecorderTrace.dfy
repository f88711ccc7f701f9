/** Recorder, protocol and server composed: whole traces of recorder operations, read by the server as they happen. */
module RecorderTrace {
  import opened CheckPoint
  import opened Records
  import opened Ring
  import opened RecorderDelivery
  import D = Delivery
  import R = RecorderModel

  // ------------------------------------------------------------------ the recorder's side of a run

  /** The recorder after its stores; what the server does meanwhile does not matter to it. */
  function Stores(p: D.Producer, acts: seq<D.Action>): (p': D.Producer)
    requires |p.cells| > 0
    ensures |p'.cells| == |p.cells|
    decreases |acts|
  {
    if acts == [] then p else D.ProducerStep(Stores(p, acts[..|acts| - 1]), acts[|acts| - 1])
  }

  function RecorderActions(run: seq<D.Action>): seq<D.Action> {
    if run == [] then [] else
    RecorderActions(run[..|run| - 1]) + if run[|run| - 1].Consume? then [] else [run[|run| - 1]]
  }

  lemma {:induction false} StoresOn(p: D.Producer, acts: seq<D.Action>, a: D.Action)
    requires |p.cells| > 0
    ensures Stores(p, acts + [a]) == D.ProducerStep(Stores(p, acts), a)
  {
    assert (acts + [a])[..|acts|] == acts;
  }

  lemma {:induction false} RunIsItsStores(w: D.World, run: seq<D.Action>)
    requires |w.p.cells| > 0
    ensures D.Exec(w, run).p == Stores(w.p, RecorderActions(run))
    decreases |run|
  {
    if run != [] {
      var before, a := run[..|run| - 1], run[|run| - 1];
      RunIsItsStores(w, before);
      if a.Consume? {
        assert RecorderActions(run) == RecorderActions(before);
      } else {
        StoresOn(w.p, RecorderActions(before), a);
      }
    }
  }

  lemma {:induction false} StoresConcat(p: D.Producer, a: seq<D.Action>, b: seq<D.Action>)
    requires |p.cells| > 0
    ensures Stores(p, a + b) == Stores(Stores(p, a), b)
    decreases |b|
  {
    if b == [] {
      assert a + b == a;
    } else {
      var fewer, act := b[..|b| - 1], b[|b| - 1];
      StoresConcat(p, a, fewer);
      assert a + b == a + fewer + [act];
      ConcatOn(p, a, fewer, act, a + b, b);
    }
  }

  lemma {:induction false} ConcatOn(p: D.Producer, a: seq<D.Action>, b: seq<D.Action>, act: D.Action,
                                    whole: seq<D.Action>, tail: seq<D.Action>)
    requires |p.cells| > 0 && Stores(p, a + b) == Stores(Stores(p, a), b)
    requires whole == a + b + [act] && tail == b + [act]
    ensures Stores(p, whole) == Stores(Stores(p, a), tail)
  {
    StoresOn(p, a + b, act);
    StoresOn(Stores(p, a), b, act);
  }

  // ------------------------------------------------------------------ one operation

  predicate HasSlots(op: R.Op) {
    op.OpEvent? ==> op.slots != []
  }

  /** The tick and the number of the records kept when the first `n` slots of a log are. */
  ghost function Kept(log: seq<Slot>, n: nat): (a: D.Action)
    requires n <= |log|
    ensures a.Retract? && a.keep == n
  {
    if Framed(log, 0, n, 0) then D.Retract(n, FinalTick(log, 0, n, 0), Count(log, 0, n, 0)) else D.Retract(n, 0, 0)
  }

  /** Dropping the pending slots takes them back. */
  ghost function DropActions(l: R.Log): seq<D.Action> {
    if l.pending == [] then [] else [Kept(Written(l), |l.committed|)]
  }

  /** A commit takes the pending slots back when they are fewer than the minimum count. */
  ghost function KeepActions(l: R.Log, minCount: nat): seq<D.Action> {
    if |l.pending| >= minCount then [] else DropActions(l)
  }

  /** What one operation stores or takes back, in program order. */
  ghost function OpActions(l: R.Log, op: R.Op, minCount: nat): seq<D.Action>
    requires HasSlots(op)
  {
    match op
    case OpAdd(slot, _) => [D.Add(slot)]
    case OpStart(slot, _) => KeepActions(l, minCount) + [D.Add(slot)]
    case OpEnd(slot, c) => [D.Add(slot)] + KeepActions(R.Append(l, [slot], c), minCount)
    case OpEvent(slots) => EventRun(slots)
    case OpCommit => KeepActions(l, minCount)
    case OpRollback => DropActions(l)
    case OpCommitIfHas(c) => if c in l.kinds then KeepActions(l, minCount) else DropActions(l)
  }

  lemma {:induction false} BodyStores(p: D.Producer, slots: seq<Slot>, k: nat)
    requires |p.cells| > 0 && 1 <= k <= |slots|
    ensures Stores(p, BodyRun(slots, k)) == PartlyStored(p, slots, k)
  {
    if k == 1 {
      BeginStores(p, slots);
    } else {
      BodyStores(p, slots, k - 1);
      StoresOn(p, BodyRun(slots, k - 1), D.StoreBody(k - 1, slots[k - 1]));
      PartlyStep(p, slots, k - 1);
    }
  }

  lemma BeginStores(p: D.Producer, slots: seq<Slot>)
    requires |p.cells| > 0 && slots != []
    ensures Stores(p, BodyRun(slots, 1)) == PartlyStored(p, slots, 1)
  {
    StoresOn(p, [], D.BeginEvent(|slots|));
    assert [] + [D.BeginEvent(|slots|)] == BodyRun(slots, 1);
  }

  lemma PartlyStep(p: D.Producer, slots: seq<Slot>, k: nat)
    requires |p.cells| > 0 && 1 <= k < |slots|
    ensures D.ProducerStep(PartlyStored(p, slots, k), D.StoreBody(k, slots[k])) == PartlyStored(p, slots, k + 1)
  {
  }

  lemma {:induction false} EventStores(p: D.Producer, slots: seq<Slot>)
    requires 0 < |slots| <= |p.cells| && p.open == 0
    ensures Stores(p, EventRun(slots)) == EventStored(p, slots)
  {
    var w, body := D.World(p, D.Initial(1).c), BodyRun(slots, |slots|);
    BodyStores(p, slots, |slots|);
    StoresOn(p, body, D.StoreMeta(slots[0]));
    StoresOn(p, body + [D.StoreMeta(slots[0])], D.StoreTick(slots[0].tick_));
    HeaderSteps(w, slots, Body(w, slots, |slots|));
  }

  /** The protocol's recorder and the recorder's own ring, between two operations. */
  ghost predicate Agree(p: D.Producer, r: R.Rec, l: R.Log) {
    p.cells == r.cells && p.log == Written(l) && p.open == 0
  }

  lemma {:induction false} SlotStores(p: D.Producer, r: R.Rec, l: R.Log, slot: Slot, c: R.Category)
    requires R.Refines(r, l) && Agree(p, r, l)
    ensures Agree(Stores(p, [D.Add(slot)]), R.Add(r, slot, c), R.Append(l, [slot], c))
  {
    StoresOn(p, [], D.Add(slot));
    assert [] + [D.Add(slot)] == [D.Add(slot)];
    AddIsOneStep(r, l, slot, c, p);
  }

  lemma {:induction false} EventAgrees(p: D.Producer, r: R.Rec, l: R.Log, slots: seq<Slot>)
    requires R.Refines(r, l) && Agree(p, r, l) && 0 < |slots| <= |r.cells|
    ensures Agree(Stores(p, EventRun(slots)), R.AddEvent(r, slots), R.Append(l, slots, R.Event))
  {
    EventStores(p, slots);
    AddEventCells(r, l, slots);
  }

  lemma {:induction false} DropAgrees(p: D.Producer, r: R.Rec, l: R.Log)
    requires |p.cells| > 0 && Agree(p, r, l)
    ensures Agree(Stores(p, DropActions(l)), R.Rollback(r), R.Drop(l))
  {
    if l.pending != [] {
      OneStore(p, Kept(Written(l), |l.committed|));
      assert p.log[..|l.committed|] == Written(R.Drop(l));
    }
  }

  lemma {:induction false} OneStore(p: D.Producer, a: D.Action)
    requires |p.cells| > 0
    ensures Stores(p, [a]) == D.ProducerStep(p, a)
  {
    StoresOn(p, [], a);
    assert [] + [a] == [a];
  }

  lemma {:induction false} CommitAgrees(p: D.Producer, r: R.Rec, l: R.Log)
    requires |p.cells| > 0 && Agree(p, r, l)
    ensures Agree(Stores(p, KeepActions(l, r.minCount)), R.Commit(r), R.Keep(l, r.minCount))
  {
    if |l.pending| < r.minCount { DropAgrees(p, r, l); }
  }

  lemma {:induction false} StartAgrees(p: D.Producer, r: R.Rec, l: R.Log, slot: Slot, c: R.Category)
    requires R.Refines(r, l) && Agree(p, r, l)
    ensures Agree(Stores(p, KeepActions(l, r.minCount) + [D.Add(slot)]), R.Add(R.Commit(r), slot, c),
                  R.Append(R.Keep(l, r.minCount), [slot], c))
  {
    R.CommitRefines(r, l);
    CommitAgrees(p, r, l);
    StoresConcat(p, KeepActions(l, r.minCount), [D.Add(slot)]);
    SlotStores(Stores(p, KeepActions(l, r.minCount)), R.Commit(r), R.Keep(l, r.minCount), slot, c);
  }

  lemma {:induction false} EndAgrees(p: D.Producer, r: R.Rec, l: R.Log, slot: Slot, c: R.Category)
    requires R.Refines(r, l) && Agree(p, r, l)
    ensures Agree(Stores(p, [D.Add(slot)] + KeepActions(R.Append(l, [slot], c), r.minCount)),
                  R.Commit(R.Add(r, slot, c)), R.Keep(R.Append(l, [slot], c), r.minCount))
  {
    SlotStores(p, r, l, slot, c);
    StoresConcat(p, [D.Add(slot)], KeepActions(R.Append(l, [slot], c), r.minCount));
    CommitAgrees(Stores(p, [D.Add(slot)]), R.Add(r, slot, c), R.Append(l, [slot], c));
  }

  lemma {:induction false} CommitIfHasAgrees(p: D.Producer, r: R.Rec, l: R.Log, c: R.Category)
    requires |p.cells| > 0 && R.Refines(r, l) && Agree(p, r, l)
    ensures Agree(Stores(p, if c in l.kinds then KeepActions(l, r.minCount) else DropActions(l)),
                  R.CommitIfHas(r, c), if c in l.kinds then R.Keep(l, r.minCount) else R.Drop(l))
  {
    if c in l.kinds { CommitAgrees(p, r, l); } else { DropAgrees(p, r, l); }
  }

  /** An operation's actions take the protocol where the operation takes the recorder. */
  lemma {:induction false} OpAgrees(p: D.Producer, r: R.Rec, l: R.Log, op: R.Op)
    requires R.Refines(r, l) && Agree(p, r, l) && HasSlots(op) && R.OpFits(l, op, |r.cells|, r.minCount)
    ensures Agree(Stores(p, OpActions(l, op, r.minCount)), R.RecStep(r, op), R.LogStep(l, op, r.minCount))
  {
    match op {
      case OpAdd(slot, c) => SlotStores(p, r, l, slot, c);
      case OpEvent(slots) => EventAgrees(p, r, l, slots);
      case OpStart(slot, c) => StartAgrees(p, r, l, slot, c);
      case OpEnd(slot, c) => EndAgrees(p, r, l, slot, c);
      case OpCommit => CommitAgrees(p, r, l);
      case OpRollback => DropAgrees(p, r, l);
      case OpCommitIfHas(c) => CommitIfHasAgrees(p, r, l, c);
    }
  }

  // ------------------------------------------------------------------ store by store

  /** The stores an event's constructors make are the protocol's own, one for one and in the same order. */
  lemma {:induction false} WritesAreRun(p: D.Producer, slots: seq<Slot>, stale: Tick, j: nat)
    requires 0 < |slots| <= |p.cells| && p.open == 0 && stale == At(p.cells, |p.log|).tick_ && j <= |slots| + 1
    ensures |EventRun(slots)| == |slots| + 2
    ensures Stores(p, EventRun(slots)[..j + 1]).cells == R.Replay(p.cells, R.EventWrites(|p.log|, slots, stale)[..j])
  {
    var n, body, meta := |slots|, BodyRun(slots, |slots|), D.StoreMeta(slots[0]);
    BodyRunLength(slots, n);
    R.EventPrefix(|p.log|, slots, stale, j);
    if j < n {
      BodyRunPrefix(slots, n, j + 1);
      assert EventRun(slots)[..j + 1] == body[..j + 1];
      BodyStores(p, slots, j + 1);
      R.BodyReplay(p.cells, |p.log|, slots, j + 1);
    } else if j == n {
      assert EventRun(slots)[..j + 1] == body + [meta];
      HeaderWritten(p, slots, stale);
    } else {
      assert EventRun(slots)[..j + 1] == EventRun(slots);
      EventStores(p, slots);
      R.EventReplay(p.cells, |p.log|, slots, stale);
    }
  }

  lemma {:induction false} HeaderWritten(p: D.Producer, slots: seq<Slot>, stale: Tick)
    requires 0 < |slots| <= |p.cells| && p.open == 0 && stale == At(p.cells, |p.log|).tick_
    ensures Stores(p, BodyRun(slots, |slots|) + [D.StoreMeta(slots[0])]).cells ==
            R.Replay(p.cells, R.BodyWrites(|p.log|, slots, |slots|) + [R.Write(|p.log|, slots[0].(tick_ := stale))])
  {
    var n := |slots|;
    BodyStores(p, slots, n);
    R.BodyReplay(p.cells, |p.log|, slots, n);
    R.BodyKeepsHeader(p.cells, |p.log|, slots);
    StoresOn(p, BodyRun(slots, n), D.StoreMeta(slots[0]));
    R.ReplayOn(p.cells, R.BodyWrites(|p.log|, slots, n), R.Write(|p.log|, slots[0].(tick_ := stale)));
  }

  lemma {:induction false} BodyRunLength(slots: seq<Slot>, k: nat)
    requires 1 <= k <= |slots|
    ensures |BodyRun(slots, k)| == k
  {
    if k > 1 { BodyRunLength(slots, k - 1); }
  }

  lemma {:induction false} BodyRunPrefix(slots: seq<Slot>, k: nat, j: nat)
    requires 1 <= j <= k <= |slots|
    ensures j <= |BodyRun(slots, k)| && BodyRun(slots, k)[..j] == BodyRun(slots, j)
  {
    BodyRunLength(slots, k);
    if j < k {
      BodyRunPrefix(slots, k - 1, j);
      BodyRunLength(slots, k - 1);
      var fewer := BodyRun(slots, k - 1);
      assert (fewer + [D.StoreBody(k - 1, slots[k - 1])])[..j] == fewer[..j];
    } else {
      assert BodyRun(slots, k)[..k] == BodyRun(slots, k);
    }
  }

  /** So the ring the recorder's own stores have left at any of them is the ring of the protocol's run there. */
  lemma {:induction false} RecorderStoresAreRun(r: R.Rec, l: R.Log, p: D.Producer, slots: seq<Slot>, j: nat)
    requires R.Refines(r, l) && Agree(p, r, l) && 0 < |slots| <= |r.cells| && j <= |slots| + 1
    ensures |EventRun(slots)| == |slots| + 2
    ensures var at := r.start + r.count;
            Stores(p, EventRun(slots)[..j + 1]).cells ==
            R.Replay(r.cells, R.EventWrites(at, slots, At(r.cells, at).tick_)[..j])
  {
    var at, stale := r.start + r.count, At(r.cells, r.start + r.count).tick_;
    WrapOfSum(|l.committed|, |l.pending|, |r.cells|);
    WritesAreRun(p, slots, stale, j);
    R.EventWritesShifted(r.cells, at, |p.log|, slots, stale, j);
  }

  // ------------------------------------------------------------------ whole traces

  ghost predicate AllHaveSlots(ops: seq<R.Op>) {
    forall op :: op in ops ==> HasSlots(op)
  }

  /** Everything a trace stores and takes back, in program order. */
  ghost function StoresOf(ops: seq<R.Op>, minCount: nat): seq<D.Action>
    requires AllHaveSlots(ops)
    decreases |ops|
  {
    if ops == [] then [] else
    var before := ops[..|ops| - 1];
    StoresOf(before, minCount) + OpActions(R.LogRun(before, minCount), ops[|ops| - 1], minCount)
  }

  /** No operation of the trace takes a pending slot back. */
  ghost predicate TakesNothingBack(ops: seq<R.Op>, minCount: nat)
    decreases |ops|
  {
    ops == [] ||
    (TakesNothingBack(ops[..|ops| - 1], minCount) && NoRollback(R.LogRun(ops[..|ops| - 1], minCount), ops[|ops| - 1]))
  }

  /** The pending slots of the trace always fit the ring and the 16-bit count. */
  ghost predicate Served(ops: seq<R.Op>, cap: nat, minCount: u16) {
    cap > 0 && AllHaveSlots(ops) && R.TraceFits(ops, cap, minCount)
  }

  lemma ServedBefore(ops: seq<R.Op>, cap: nat, minCount: u16)
    requires Served(ops, cap, minCount) && ops != []
    ensures Served(ops[..|ops| - 1], cap, minCount)
  {
  }

  /** All stores of a trace leave the protocol's ring and log as the trace leaves the recorder's. */
  lemma {:induction false} TraceAgrees(ops: seq<R.Op>, cap: nat, minCount: u16)
    requires Served(ops, cap, minCount)
    ensures Agree(Stores(D.Initial(cap).p, StoresOf(ops, minCount)), R.RecRun(ops, cap, minCount),
                  R.LogRun(ops, minCount))
    decreases |ops|
  {
    if ops != [] {
      var before, op := ops[..|ops| - 1], ops[|ops| - 1];
      ServedBefore(ops, cap, minCount);
      TraceAgrees(before, cap, minCount);
      R.TraceRefines(before, cap, minCount);
      StoresConcat(D.Initial(cap).p, StoresOf(before, minCount), OpActions(R.LogRun(before, minCount), op, minCount));
      OpAgrees(Stores(D.Initial(cap).p, StoresOf(before, minCount)), R.RecRun(before, cap, minCount),
               R.LogRun(before, minCount), op);
    }
  }

  // ------------------------------------------------------------------ traces still under way

  predicate InsideEvent(a: D.Action) {
    a.StoreBody? || a.StoreMeta?
  }

  ghost predicate AllInside(acts: seq<D.Action>) {
    forall i :: 0 <= i < |acts| ==> InsideEvent(acts[i])
  }

  lemma {:induction false} InsideLeavesLog(p: D.Producer, acts: seq<D.Action>)
    requires |p.cells| > 0 && AllInside(acts)
    ensures Stores(p, acts).log == p.log && Stores(p, acts).open == p.open
    decreases |acts|
  {
    if acts != [] {
      var fewer, a := acts[..|acts| - 1], acts[|acts| - 1];
      InsideLeavesLog(p, fewer);
      InsideStep(Stores(p, fewer), a);
    }
  }

  lemma InsideStep(p: D.Producer, a: D.Action)
    requires |p.cells| > 0 && InsideEvent(a)
    ensures D.ProducerStep(p, a).log == p.log && D.ProducerStep(p, a).open == p.open
  {
  }

  /** A run of stores that opens an event of `n` slots and is inside it up to its last store. */
  ghost predicate EventShaped(run: seq<D.Action>, n: nat) {
    |run| >= 2 && run[0] == D.BeginEvent(n) && AllInside(run[1..|run| - 1])
  }

  lemma {:induction false} BodyRunShape(slots: seq<Slot>, k: nat)
    requires 1 <= k <= |slots|
    ensures BodyRun(slots, k) != [] && BodyRun(slots, k)[0] == D.BeginEvent(|slots|)
    ensures AllInside(BodyRun(slots, k)[1..])
  {
    if k > 1 {
      BodyRunShape(slots, k - 1);
      var before, a := BodyRun(slots, k - 1), D.StoreBody(k - 1, slots[k - 1]);
      assert (before + [a])[1..] == before[1..] + [a];
    }
  }

  lemma ShapeOfEvent(body: seq<D.Action>, n: nat, meta: D.Action, tick: D.Action)
    requires body != [] && body[0] == D.BeginEvent(n) && AllInside(body[1..]) && InsideEvent(meta)
    ensures EventShaped(body + [meta] + [tick], n)
  {
    var run := body + [meta] + [tick];
    assert run[1..|run| - 1] == body[1..] + [meta];
  }

  lemma {:induction false} PartOfShaped(p: D.Producer, run: seq<D.Action>, n: nat, j: nat)
    requires |p.cells| > 0 && EventShaped(run, n) && 0 < j < |run|
    ensures Stores(p, run[..j]).log == p.log && Stores(p, run[..j]).open == n
  {
    var inside := run[1..j];
    assert AllInside(inside) by {
      forall i | 0 <= i < |inside|
        ensures InsideEvent(inside[i])
      {
        assert inside[i] == run[1..|run| - 1][i];
      }
    }
    assert run[..j] == [run[0]] + inside;
    StoresConcat(p, [run[0]], inside);
    StoresOn(p, [], run[0]);
    assert [] + [run[0]] == [run[0]];
    InsideLeavesLog(Stores(p, [run[0]]), inside);
  }

  /** Until an event's tick is stored its slots are no part of the log, and the event is open. */
  lemma {:induction false} PartOfEvent(p: D.Producer, slots: seq<Slot>, part: seq<D.Action>)
    requires |p.cells| > 0 && slots != [] && part != [] && part < EventRun(slots)
    ensures Stores(p, part).log == p.log && Stores(p, part).open > 0
  {
    var run := EventRun(slots);
    BodyRunShape(slots, |slots|);
    ShapeOfEvent(BodyRun(slots, |slots|), |slots|, D.StoreMeta(slots[0]), D.StoreTick(slots[0].tick_));
    assert part == run[..|part|];
    PartOfShaped(p, run, |slots|, |part|);
  }

  /** The recorder between the two parts of a `start` or an `end`; nothing else is done in two parts. */
  function HalfLog(l: R.Log, op: R.Op, minCount: nat): R.Log {
    if op.OpStart? then R.Keep(l, minCount) else if op.OpEnd? then R.Append(l, [op.slot], op.category) else l
  }

  function HalfRec(r: R.Rec, op: R.Op): R.Rec
    requires |r.cells| > 0
  {
    if op.OpStart? then R.Commit(r) else if op.OpEnd? then R.Add(r, op.slot, op.category) else r
  }

  /** The log as the first `k` operations left it, or as half of the next one does. */
  function LogAt(ops: seq<R.Op>, minCount: nat, k: nat, half: bool): R.Log
    requires k <= |ops| && (half ==> k < |ops|)
  {
    var l := R.LogRun(ops[..k], minCount);
    if half then HalfLog(l, ops[k], minCount) else l
  }

  function RecAt(ops: seq<R.Op>, cap: nat, minCount: u16, k: nat, half: bool): R.Rec
    requires cap > 0 && AllHaveSlots(ops) && k <= |ops| && (half ==> k < |ops|)
  {
    FirstHaveSlots(ops, k);
    var r := R.RecRun(ops[..k], cap, minCount);
    if half then HalfRec(r, ops[k]) else r
  }

  /** The recorder stands there, perhaps inside the event that comes next; between events its ring is the same too. */
  ghost predicate Behind(p: D.Producer, ops: seq<R.Op>, cap: nat, minCount: u16, k: nat, half: bool)
    requires cap > 0 && AllHaveSlots(ops)
  {
    && k <= |ops| && (half ==> k < |ops|)
    && p.log == Written(LogAt(ops, minCount, k, half))
    && (p.open == 0 ==> p.cells == RecAt(ops, cap, minCount, k, half).cells)
  }

  lemma FirstHaveSlots(ops: seq<R.Op>, k: nat)
    requires AllHaveSlots(ops) && k <= |ops|
    ensures AllHaveSlots(ops[..k])
  {
  }

  lemma {:induction false} AllDone(ops: seq<R.Op>, cap: nat, minCount: u16)
    requires Served(ops, cap, minCount)
    ensures Behind(Stores(D.Initial(cap).p, StoresOf(ops, minCount)), ops, cap, minCount, |ops|, false)
  {
    assert ops[..|ops|] == ops;
    TraceAgrees(ops, cap, minCount);
  }

  /** Between two actions of one operation, which is then an event or done in two parts. */
  lemma {:induction false} PartOfOp(p: D.Producer, r: R.Rec, l: R.Log, op: R.Op, part: seq<D.Action>)
      returns (half: bool)
    requires R.Refines(r, l) && Agree(p, r, l) && HasSlots(op)
    requires part != [] && part < OpActions(l, op, r.minCount)
    ensures Stores(p, part).log == Written(if half then HalfLog(l, op, r.minCount) else l)
    ensures Stores(p, part).open == 0 ==> Stores(p, part).cells == (if half then HalfRec(r, op) else r).cells
  {
    half := !op.OpEvent?;
    match op {
      case OpEvent(slots) => PartOfEvent(p, slots, part);
      case OpStart(slot, c) =>
        assert part == KeepActions(l, r.minCount);
        CommitAgrees(p, r, l);
      case OpEnd(slot, c) =>
        assert part == [D.Add(slot)];
        SlotStores(p, r, l, slot, c);
      case _ =>
        assert false;
    }
  }

  lemma {:induction false} InsideLast(ops: seq<R.Op>, cap: nat, minCount: u16, part: seq<D.Action>) returns (half: bool)
    requires Served(ops, cap, minCount) && ops != [] && part != []
    requires part < OpActions(R.LogRun(ops[..|ops| - 1], minCount), ops[|ops| - 1], minCount)
    ensures Behind(Stores(D.Initial(cap).p, StoresOf(ops[..|ops| - 1], minCount) + part), ops, cap, minCount,
                   |ops| - 1, half)
  {
    var before := ops[..|ops| - 1];
    ServedBefore(ops, cap, minCount);
    TraceAgrees(before, cap, minCount);
    R.TraceRefines(before, cap, minCount);
    StoresConcat(D.Initial(cap).p, StoresOf(before, minCount), part);
    half := PartOfOp(Stores(D.Initial(cap).p, StoresOf(before, minCount)), R.RecRun(before, cap, minCount),
                     R.LogRun(before, minCount), ops[|ops| - 1], part);
  }

  lemma BehindLonger(p: D.Producer, ops: seq<R.Op>, cap: nat, minCount: u16, k: nat, half: bool)
    requires cap > 0 && AllHaveSlots(ops) && ops != [] && AllHaveSlots(ops[..|ops| - 1])
    requires Behind(p, ops[..|ops| - 1], cap, minCount, k, half)
    ensures Behind(p, ops, cap, minCount, k, half)
  {
    assert ops[..|ops| - 1][..k] == ops[..k];
  }

  /** At every point of a trace the recorder stands behind some first operations. */
  lemma {:induction false} TraceUnderWay(ops: seq<R.Op>, cap: nat, minCount: u16, acts: seq<D.Action>)
    returns (k: nat, half: bool)
    requires Served(ops, cap, minCount) && acts <= StoresOf(ops, minCount)
    ensures Behind(Stores(D.Initial(cap).p, acts), ops, cap, minCount, k, half)
    decreases |ops|
  {
    if acts == StoresOf(ops, minCount) {
      k, half := |ops|, false;
      AllDone(ops, cap, minCount);
    } else {
      var done := StoresOf(ops[..|ops| - 1], minCount);
      ServedBefore(ops, cap, minCount);
      if |acts| <= |done| {
        k, half := TraceUnderWay(ops[..|ops| - 1], cap, minCount, acts);
        BehindLonger(Stores(D.Initial(cap).p, acts), ops, cap, minCount, k, half);
      } else {
        k := |ops| - 1;
        assert acts == done + acts[|done|..];
        half := InsideLast(ops, cap, minCount, acts[|done|..]);
      }
    }
  }

  lemma {:induction false} WrittenGrows(ops: seq<R.Op>, minCount: nat, k: nat, half: bool)
    requires k <= |ops| && (half ==> k < |ops|) && minCount <= 1 && TakesNothingBack(ops, minCount)
    ensures Written(LogAt(ops, minCount, k, half)) <= Written(R.LogRun(ops, minCount))
    decreases |ops|
  {
    if k == |ops| {
      assert ops[..k] == ops;
    } else {
      var before, op := ops[..|ops| - 1], ops[|ops| - 1];
      WrittenOnlyGrows(R.LogRun(before, minCount), op, minCount);
      if k == |before| {
        KeepWritten(R.LogRun(before, minCount), minCount);
        if op.OpEnd? { KeepWritten(R.Append(R.LogRun(before, minCount), [op.slot], op.category), minCount); }
      } else {
        assert before[..k] == ops[..k];
        WrittenGrows(before, minCount, k, half);
      }
    }
  }

  /**
   The composed system. A recorder performs the operations of a trace, action by action, with any minimum
   count and any `rollback`; a server takes its steps anywhere in between. At every moment the log the server
   reads from is what some first operations of the trace left, between events the ring is the recorder's own,
   and what the server has handed on is an initial segment of that log.
   */
  lemma {:induction false} TraceIsDelivered(ops: seq<R.Op>, cap: nat, minCount: u16, run: seq<D.Action>)
    returns (k: nat, half: bool)
    requires Served(ops, cap, minCount) && RecorderActions(run) <= StoresOf(ops, minCount)
    requires D.Legal(D.Initial(cap), run) && D.Undisturbed(D.Initial(cap), run)
    ensures var w := D.Exec(D.Initial(cap), run);
            && Behind(w.p, ops, cap, minCount, k, half)
            && w.c.out <= Written(LogAt(ops, minCount, k, half))
            && (RecorderActions(run) == StoresOf(ops, minCount) ==>
                Agree(w.p, R.RecRun(ops, cap, minCount), R.LogRun(ops, minCount)))
  {
    RunIsItsStores(D.Initial(cap), run);
    k, half := TraceUnderWay(ops, cap, minCount, RecorderActions(run));
    if RecorderActions(run) == StoresOf(ops, minCount) { TraceAgrees(ops, cap, minCount); }
    D.DeliversInOrder(cap, run);
  }

  /** Where nothing is taken back, that is an initial segment of all the trace will ever write. */
  lemma {:induction false} ForwardTraceIsDelivered(ops: seq<R.Op>, cap: nat, minCount: u16, run: seq<D.Action>)
    requires Served(ops, cap, minCount) && RecorderActions(run) <= StoresOf(ops, minCount)
    requires minCount <= 1 && TakesNothingBack(ops, minCount)
    requires D.Legal(D.Initial(cap), run) && D.Undisturbed(D.Initial(cap), run)
    ensures D.Exec(D.Initial(cap), run).c.out <= Written(R.LogRun(ops, minCount))
  {
    var k, half := TraceIsDelivered(ops, cap, minCount, run);
    WrittenGrows(ops, minCount, k, half);
  }
}
