/**
 The protocol between one recorder and one checkpoint server, with no shared head index.

 The recorder stores slots at growing absolute positions of the ring. The server walks forward from
 its own index and takes a slot as a record header when its tick exceeds the last tick taken. Every
 store that the server can tell apart and every slot read is one step, and the steps of the two
 sides interleave freely.
 */
module Delivery {
  import opened CheckPoint
  import opened Ring
  import opened Records

  // ------------------------------------------------------------------ the two sides

  /**
   `log` is every finished slot not taken back, in the order of its position, and `last` the tick of its
   last record. `open` is the number of slots of the event whose constructor is still running, 0 between
   events. `high` is one past the highest position any slot was ever stored at or promised to.
   */
  datatype Producer = Producer(cells: seq<Slot>, log: seq<Slot>, last: Tick, open: nat, high: nat)

  /**
   Where the server is inside `copy_available`; `found` counts the records of the current run. A turn of
   the scan looks at the next header four times: for emptiness (`Probe`), for a tick past the last one
   (`Guard`), after the fence for its size (`Accepted`), and for the tick it will remember (`Sized`).
   `seen` is the tick the guard saw; the code does not keep it, only statements speak of it.
   */
  datatype Phase =
    | Idle
    | Probe(slots: nat, runLast: Tick, found: nat)
    | Guard(slots: nat, runLast: Tick, found: nat)
    | Accepted(slots: nat, runLast: Tick, found: nat, seen: Tick)
    | Sized(slots: nat, runLast: Tick, found: nat, seen: Tick, size: nat)
    | Copying(slots: nat, runLast: Tick, found: nat, done: nat)
    | Failed

  predicate Scanning(phase: Phase) {
    phase.Probe? || phase.Guard? || phase.Accepted? || phase.Sized?
  }

  /** `out` is every slot handed to the writer so far. */
  datatype Consumer = Consumer(next: nat, last: Tick, copied: nat, records: nat, out: seq<Slot>, phase: Phase)

  datatype World = World(p: Producer, c: Consumer)

  datatype Action =
    | Add(slot: Slot)
    | BeginEvent(slots: nat)
    | StoreBody(k: nat, slot: Slot)
    | StoreMeta(slot: Slot)
    | StoreTick(tick: Tick)
    | Retract(keep: nat, last: Tick, count: nat)
    | Consume

  // ------------------------------------------------------------------ the server's steps

  function EndScan(c: Consumer, slots: nat, runLast: Tick, found: nat): Consumer {
    c.(phase := if slots == 0 then Idle else Copying(slots, runLast, found, 0))
  }

  /** One slot read, or one statement between two reads. */
  function ConsumerStep(c: Consumer, cells: seq<Slot>): Consumer
    requires |cells| > 0
  {
    match c.phase
    case Idle => c.(phase := Probe(0, c.last, 0))
    case Probe(slots, runLast, found) =>
      if slots >= |cells| || IsEmpty(At(cells, c.next + slots)) then EndScan(c, slots, runLast, found)
      else c.(phase := Guard(slots, runLast, found))
    case Guard(slots, runLast, found) =>
      var tick := At(cells, c.next + slots).tick_;
      if tick <= runLast then EndScan(c, slots, runLast, found)
      else c.(phase := Accepted(slots, runLast, found, tick))
    case Accepted(slots, runLast, found, seen) =>
      var size := RecordSlots(At(cells, c.next + slots));
      if size > |cells| then c.(phase := Failed)
      else if slots + size > |cells| then EndScan(c, slots, runLast, found)
      else c.(phase := Sized(slots, runLast, found, seen, size))
    case Sized(slots, runLast, found, _, size) =>
      c.(phase := Probe(slots + size, At(cells, c.next + slots).tick_, found + 1))
    case Copying(slots, runLast, found, done) =>
      if done < slots then
        c.(out := c.out + [At(cells, c.next + done)], phase := Copying(slots, runLast, found, done + 1))
      else
        Consumer(Wrap(c.next + slots, |cells|), runLast, c.copied + slots, c.records + found, c.out,
                 if slots < |cells| then Idle else Probe(0, runLast, 0))
    case Failed => c
  }

  // ------------------------------------------------------------------ the recorder's steps

  /** The slots of the running event as they lie in the ring, its header carrying `tick`. */
  function OpenSlots(p: Producer, tick: Tick): seq<Slot>
    requires |p.cells| > 0
  {
    seq(p.open, i requires 0 <= i =>
      if i == 0 then At(p.cells, |p.log|).(tick_ := tick) else At(p.cells, |p.log| + i))
  }

  /**
   What the recorder and its user owe: ticks grow strictly from above 0, an event's header announces
   the slots it occupies, the recorder never gets a full lap ahead of the server, and what it takes back
   are whole records, all but the first `count`.
   */
  ghost predicate Enabled(w: World, a: Action)
    requires |w.p.cells| > 0
  {
    var p := w.p;
    match a
    case Add(slot) =>
      p.open == 0 && slot.reserved_ == 0 && slot.tick_ > p.last && |p.log| + 1 <= w.c.copied + |p.cells|
    case BeginEvent(n) => p.open == 0 && 1 <= n <= |p.cells| && |p.log| + n <= w.c.copied + |p.cells|
    case StoreBody(k, _) => 1 <= k < p.open
    case StoreMeta(_) => p.open > 0
    case StoreTick(tick) => p.open > 0 && RecordSlots(At(p.cells, |p.log|)) == p.open && tick > p.last
    case Retract(keep, last, count) => p.open == 0 && Run(p.log, 0, keep, 0, last, count)
    case Consume => true
  }

  function Max(a: nat, b: nat): nat {
    if a < b then b else a
  }

  function ProducerStep(p: Producer, a: Action): Producer
    requires |p.cells| > 0
  {
    var end := |p.log|;
    match a
    case Add(slot) => Producer(Put(p.cells, end, slot), p.log + [slot], slot.tick_, 0, Max(p.high, end + 1))
    case BeginEvent(n) => p.(open := n, high := Max(p.high, end + n))
    case StoreBody(k, slot) => p.(cells := Put(p.cells, end + k, slot))
    case StoreMeta(slot) => p.(cells := Put(p.cells, end, slot.(tick_ := At(p.cells, end).tick_)))
    case StoreTick(tick) =>
      Producer(Put(p.cells, end, At(p.cells, end).(tick_ := tick)), p.log + OpenSlots(p, tick), tick, 0, p.high)
    case Retract(keep, last, _) => if keep <= end then p.(log := p.log[..keep], last := last) else p
    case Consume => p
  }

  function Step(w: World, a: Action): (w': World)
    requires |w.p.cells| > 0
    ensures |w'.p.cells| == |w.p.cells|
  {
    if a.Consume? then World(w.p, ConsumerStep(w.c, w.p.cells)) else World(ProducerStep(w.p, a), w.c)
  }

  // ------------------------------------------------------------------ invariants

  /** What lies where the next header will be stored cannot pass for a new record. */
  predicate Quiet(p: Producer)
    requires |p.cells| > 0
  {
    At(p.cells, |p.log|).tick_ <= p.last
  }

  ghost predicate Intact(p: Producer)
    requires |p.cells| > 0
  {
    && (forall q: nat :: q < |p.log| && p.high <= q + |p.cells| ==> At(p.cells, q) == p.log[q])
    && (forall q: nat :: p.high <= q < |p.cells| ==> At(p.cells, q) == ZERO_SLOT)
  }

  ghost predicate ProducerOk(p: Producer) {
    && 0 < |p.cells| && p.open <= |p.cells| && |p.log| + p.open <= p.high
    && (exists n: nat :: Run(p.log, 0, |p.log|, 0, p.last, n))
    && Intact(p)
  }

  /** The log as whole records on both sides of position `at`, the last record before it at tick `mid`. */
  ghost predicate Boundary(p: Producer, from: nat, at: nat, last: Tick, mid: Tick, count: nat) {
    && Run(p.log, from, at, last, mid, count)
    && (exists n: nat :: Run(p.log, at, |p.log|, mid, p.last, n))
  }

  ghost predicate Window(p: Producer, c: Consumer)
    requires |p.cells| > 0
  {
    c.next == Wrap(c.copied, |p.cells|) && |p.log| <= p.high <= c.copied + |p.cells|
  }

  /** The run scanned so far is whole records and nothing of it has been copied yet. */
  ghost predicate Scanned(p: Producer, c: Consumer, slots: nat, runLast: Tick, found: nat) {
    |c.out| == c.copied && Boundary(p, c.copied, c.copied + slots, c.last, runLast, found)
  }

  /** The slot behind the scanned run is a finished header. */
  predicate AtHeader(p: Producer, c: Consumer, slots: nat, seen: Tick) {
    c.copied + slots < |p.log| && seen == p.log[c.copied + slots].tick_
  }

  ghost predicate PhaseOk(p: Producer, c: Consumer) {
    match c.phase
    case Idle => |c.out| == c.copied
    case Probe(slots, runLast, found) => Scanned(p, c, slots, runLast, found)
    case Guard(slots, runLast, found) => Scanned(p, c, slots, runLast, found) && slots < |p.cells|
    case Accepted(slots, runLast, found, seen) => Scanned(p, c, slots, runLast, found) && AtHeader(p, c, slots, seen)
    case Sized(slots, runLast, found, seen, size) =>
      Scanned(p, c, slots, runLast, found) && AtHeader(p, c, slots, seen)
      && size == RecordSlots(p.log[c.copied + slots])
    case Copying(slots, runLast, found, done) =>
      |c.out| == c.copied + done && Boundary(p, c.copied, c.copied + slots, c.last, runLast, found)
      && done <= slots && slots > 0
    case Failed => false
  }

  ghost predicate ConsumerOk(p: Producer, c: Consumer)
    requires |p.cells| > 0
  {
    Boundary(p, 0, c.copied, 0, c.last, c.records) && Window(p, c) && c.out <= p.log && PhaseOk(p, c)
  }

  ghost predicate Ok(w: World) {
    ProducerOk(w.p) && ConsumerOk(w.p, w.c)
  }

  /** The ring right after `Recorder::init` zeroed it, with a server that has just mapped it. */
  function Initial(cap: nat): World {
    World(Producer(seq(cap, _ => ZERO_SLOT), [], 0, 0, 0), Consumer(0, 0, 0, 0, [], Idle))
  }

  lemma InitialOk(cap: nat)
    requires cap > 0
    ensures Ok(Initial(cap)) && Level(Initial(cap).p)
  {
    assert Run([], 0, 0, 0, 0, 0);
  }

  // ------------------------------------------------------------------ producer steps

  lemma AddOk(p: Producer, slot: Slot)
    requires ProducerOk(p) && p.open == 0 && slot.reserved_ == 0 && slot.tick_ > p.last
    ensures ProducerOk(ProducerStep(p, Add(slot)))
    ensures Run(p.log + [slot], |p.log|, |p.log| + 1, p.last, slot.tick_, 1)
  {
    var end, p' := |p.log|, ProducerStep(p, Add(slot));
    PutOnlyThere(p.cells, end, slot);
    var n :| Run(p.log, 0, end, 0, p.last, n);
    RunOutlivesGrowth(p.log, [slot], 0, end, 0, p.last, n);
    OneRecord(p'.log, end, end + 1, p.last);
    RunsJoin(p'.log, 0, end, end + 1, 0, p.last, p'.last, n, 1);
  }

  lemma StoreOk(p: Producer, k: nat, slot: Slot)
    requires ProducerOk(p) && k < p.open
    ensures ProducerOk(p.(cells := Put(p.cells, |p.log| + k, slot)))
  {
    PutOnlyThere(p.cells, |p.log| + k, slot);
  }

  lemma StoreTickIntact(p: Producer, tick: Tick)
    requires |p.cells| > 0 && p.open <= |p.cells| && Intact(p) && p.open > 0 && |p.log| + p.open <= p.high
    ensures Intact(ProducerStep(p, StoreTick(tick)))
  {
    var more, p' := OpenSlots(p, tick), ProducerStep(p, StoreTick(tick));
    PutOnlyThere(p.cells, |p.log|, At(p.cells, |p.log|).(tick_ := tick));
    forall q: nat | |p.log| <= q < |p'.log|
      ensures At(p'.cells, q) == p'.log[q]
    {
      assert p'.log[q] == more[q - |p.log|];
    }
  }

  lemma StoreTickOk(p: Producer, tick: Tick)
    requires ProducerOk(p) && p.open > 0 && RecordSlots(At(p.cells, |p.log|)) == p.open && tick > p.last
    ensures ProducerOk(ProducerStep(p, StoreTick(tick)))
    ensures Run(p.log + OpenSlots(p, tick), |p.log|, |p.log| + p.open, p.last, tick, 1)
  {
    var end, more, p' := |p.log|, OpenSlots(p, tick), ProducerStep(p, StoreTick(tick));
    var n :| Run(p.log, 0, end, 0, p.last, n);
    RunOutlivesGrowth(p.log, more, 0, end, 0, p.last, n);
    assert p'.log[end] == more[0];
    OneRecord(p'.log, end, end + p.open, p.last);
    RunsJoin(p'.log, 0, end, end + p.open, 0, p.last, tick, n, 1);
    StoreTickIntact(p, tick);
  }

  lemma BodyOk(p: Producer, k: nat, slot: Slot)
    requires ProducerOk(p) && 1 <= k < p.open
    ensures ProducerOk(ProducerStep(p, StoreBody(k, slot)))
  {
    StoreOk(p, k, slot);
  }

  lemma MetaOk(p: Producer, slot: Slot)
    requires ProducerOk(p) && p.open > 0
    ensures ProducerOk(ProducerStep(p, StoreMeta(slot)))
  {
    StoreOk(p, 0, slot.(tick_ := At(p.cells, |p.log|).tick_));
  }

  lemma BeginOk(p: Producer, n: nat)
    requires ProducerOk(p) && p.open == 0 && n <= |p.cells|
    ensures ProducerOk(ProducerStep(p, BeginEvent(n)))
  {
  }

  lemma RetractOk(p: Producer, keep: nat, last: Tick, count: nat)
    requires ProducerOk(p) && p.open == 0 && Run(p.log, 0, keep, 0, last, count)
    ensures ProducerOk(ProducerStep(p, Retract(keep, last, count)))
  {
    RunOfPrefix(p.log, keep, 0, keep, 0, last, count);
  }

  lemma ProducerStepOk(w: World, a: Action)
    requires ProducerOk(w.p) && Enabled(w, a) && !a.Consume?
    ensures ProducerOk(ProducerStep(w.p, a))
  {
    match a {
      case Add(slot) => AddOk(w.p, slot);
      case BeginEvent(n) => BeginOk(w.p, n);
      case StoreBody(k, slot) => BodyOk(w.p, k, slot);
      case StoreMeta(slot) => MetaOk(w.p, slot);
      case StoreTick(tick) => StoreTickOk(w.p, tick);
      case Retract(keep, last, count) => RetractOk(w.p, keep, last, count);
    }
  }

  /** Finishing a record moves no boundary; it only lengthens what lies after it. */
  lemma BoundaryOutlivesRecord(p: Producer, from: nat, at: nat, last: Tick, mid: Tick, count: nat,
                               p': Producer, more: seq<Slot>)
    requires Boundary(p, from, at, last, mid, count)
    requires p'.log == p.log + more && (more != [] ==> Run(p'.log, |p.log|, |p'.log|, p.last, p'.last, 1))
    requires more == [] ==> p'.last == p.last
    ensures Boundary(p', from, at, last, mid, count)
  {
    var n: nat :| Run(p.log, at, |p.log|, mid, p.last, n);
    RunOutlivesGrowth(p.log, more, from, at, last, mid, count);
    RunOutlivesGrowth(p.log, more, at, |p.log|, mid, p.last, n);
    if more != [] { RunsJoin(p'.log, at, |p.log|, |p'.log|, mid, p.last, p'.last, n, 1); }
  }

  lemma ConsumerOutlivesRecord(p: Producer, c: Consumer, p': Producer, more: seq<Slot>)
    requires |p.cells| > 0 && |p'.cells| == |p.cells| && ConsumerOk(p, c)
    requires p'.log == p.log + more && (more != [] ==> Run(p'.log, |p.log|, |p'.log|, p.last, p'.last, 1))
    requires more == [] ==> p'.last == p.last
    requires |p'.log| <= p'.high <= c.copied + |p.cells|
    ensures ConsumerOk(p', c)
  {
    BoundaryOutlivesRecord(p, 0, c.copied, 0, c.last, c.records, p', more);
    if !c.phase.Idle? {
      BoundaryOutlivesRecord(p, c.copied, c.copied + c.phase.slots, c.last, c.phase.runLast, c.phase.found, p', more);
    }
  }

  lemma AddKeepsConsumer(w: World, slot: Slot)
    requires Ok(w) && Enabled(w, Add(slot))
    ensures ConsumerOk(ProducerStep(w.p, Add(slot)), w.c)
  {
    AddOk(w.p, slot);
    ConsumerOutlivesRecord(w.p, w.c, ProducerStep(w.p, Add(slot)), [slot]);
  }

  lemma StoreTickKeepsConsumer(w: World, tick: Tick)
    requires Ok(w) && Enabled(w, StoreTick(tick))
    ensures ConsumerOk(ProducerStep(w.p, StoreTick(tick)), w.c)
  {
    StoreTickOk(w.p, tick);
    ConsumerOutlivesRecord(w.p, w.c, ProducerStep(w.p, StoreTick(tick)), OpenSlots(w.p, tick));
  }

  /** How far the server has committed itself: behind everything scanned, and into a header let pass. */
  function Reach(c: Consumer): nat {
    match c.phase
    case Probe(slots, _, _) => c.copied + slots
    case Guard(slots, _, _) => c.copied + slots
    case Accepted(slots, _, _, _) => c.copied + slots + 1
    case Sized(slots, _, _, _, _) => c.copied + slots + 1
    case Copying(slots, _, _, _) => c.copied + slots
    case _ => c.copied
  }

  /** Taking records back leaves the server in order exactly when it has not reached into them. */
  lemma {:induction false} RetractKeepsConsumer(p: Producer, c: Consumer, keep: nat, last: Tick, count: nat)
    requires |p.cells| > 0 && ConsumerOk(p, c) && Run(p.log, 0, keep, 0, last, count)
    ensures ConsumerOk(ProducerStep(p, Retract(keep, last, count)), c) <==> Reach(c) <= keep
  {
    if Reach(c) <= keep { UnreachedRetract(p, c, keep, last, count); }
  }

  lemma {:induction false} UnreachedRetract(p: Producer, c: Consumer, keep: nat, last: Tick, count: nat)
    requires |p.cells| > 0 && ConsumerOk(p, c) && Run(p.log, 0, keep, 0, last, count) && Reach(c) <= keep
    ensures ConsumerOk(ProducerStep(p, Retract(keep, last, count)), c)
  {
    UnreachedBoundary(p, 0, c.copied, 0, c.last, c.records, keep, last, count);
    if !c.phase.Idle? {
      var at, runLast, found := c.copied + c.phase.slots, c.phase.runLast, c.phase.found;
      BoundariesJoin(p, c, c.phase.slots, runLast, found);
      UnreachedBoundary(p, 0, at, 0, runLast, c.records + found, keep, last, count);
      RunOfPrefix(p.log, keep, c.copied, at, c.last, runLast, found);
    }
    KeptInOrder(p, c, ProducerStep(p, Retract(keep, last, count)), keep);
  }

  lemma KeptInOrder(p: Producer, c: Consumer, p': Producer, keep: nat)
    requires |p.cells| > 0 && ConsumerOk(p, c) && Reach(c) <= keep <= |p.log|
             && p' == p.(log := p.log[..keep], last := p'.last)
    requires Boundary(p', 0, c.copied, 0, c.last, c.records)
    requires !c.phase.Idle? ==>
      Boundary(p', c.copied, c.copied + c.phase.slots, c.last, c.phase.runLast, c.phase.found)
    ensures ConsumerOk(p', c)
  {
  }

  lemma UnreachedBoundary(p: Producer, lo: nat, at: nat, first: Tick, mid: Tick, n: nat, keep: nat, last: Tick,
                          count: nat)
    requires |p.cells| > 0 && Boundary(p, lo, at, first, mid, n) && Run(p.log, lo, keep, first, last, count)
             && at <= keep
    ensures Boundary(ProducerStep(p, Retract(keep, last, count)), lo, at, first, mid, n)
  {
    RunsSplit(p.log, lo, at, keep, first, mid, last, n, count);
    RunOfPrefix(p.log, keep, lo, at, first, mid, n);
    RunOfPrefix(p.log, keep, at, keep, mid, last, count - n);
  }

  lemma ProducerStepKeepsConsumer(w: World, a: Action)
    requires Ok(w) && Enabled(w, a) && !a.Consume? && (a.Retract? ==> Reach(w.c) <= a.keep)
    ensures ConsumerOk(ProducerStep(w.p, a), w.c)
  {
    match a {
      case Add(slot) => AddKeepsConsumer(w, slot);
      case StoreTick(tick) => StoreTickKeepsConsumer(w, tick);
      case BeginEvent(_) => ConsumerOutlivesRecord(w.p, w.c, ProducerStep(w.p, a), []);
      case StoreBody(_, _) => ConsumerOutlivesRecord(w.p, w.c, ProducerStep(w.p, a), []);
      case StoreMeta(_) => ConsumerOutlivesRecord(w.p, w.c, ProducerStep(w.p, a), []);
      case Retract(keep, last, count) => RetractKeepsConsumer(w.p, w.c, keep, last, count);
    }
  }

  // ------------------------------------------------------------------ server steps

  /** The cell the server looks at is that position of the log, still intact. */
  lemma ReadsTheLog(p: Producer, c: Consumer, d: nat)
    requires |p.cells| > 0 && Intact(p) && Window(p, c)
    ensures At(p.cells, c.next + d) == At(p.cells, c.copied + d)
    ensures c.copied + d < |p.log| ==> At(p.cells, c.next + d) == p.log[c.copied + d]
  {
    AtShifted(p.cells, c.copied, d);
  }

  /** Moving a boundary over the record that begins at it. */
  lemma BoundaryAdvances(p: Producer, from: nat, at: nat, last: Tick, mid: Tick, count: nat)
    requires Boundary(p, from, at, last, mid, count) && at < |p.log|
    ensures at + RecordSlots(p.log[at]) <= |p.log| && p.log[at].tick_ > mid
    ensures Boundary(p, from, at + RecordSlots(p.log[at]), last, p.log[at].tick_, count + 1)
  {
    var n: nat :| Run(p.log, at, |p.log|, mid, p.last, n);
    RunHead(p.log, at, |p.log|, mid, p.last, n);
    OneRecord(p.log, at, at + RecordSlots(p.log[at]), mid);
    RunsJoin(p.log, from, at, at + RecordSlots(p.log[at]), last, mid, p.log[at].tick_, count, 1);
  }

  /** A slot of the log at a boundary is a finished header: neither late nor cut off. */
  lemma HeaderShows(p: Producer, c: Consumer)
    requires ProducerOk(p) && ConsumerOk(p, c) && Scanning(c.phase)
    ensures At(p.cells, c.next + c.phase.slots) == At(p.cells, c.copied + c.phase.slots)
    ensures c.copied + c.phase.slots < |p.log| ==>
      var header := p.log[c.copied + c.phase.slots];
      At(p.cells, c.next + c.phase.slots) == header && header.tick_ > c.phase.runLast
      && c.phase.slots + RecordSlots(header) <= |p.cells|
    ensures c.copied + c.phase.slots == |p.log| ==> c.phase.runLast == p.last
  {
    ReadsTheLog(p, c, c.phase.slots);
    if c.copied + c.phase.slots < |p.log| {
      BoundaryAdvances(p, c.copied, c.copied + c.phase.slots, c.last, c.phase.runLast, c.phase.found);
    }
  }

  /** A step that only moves the phase. */
  lemma Rephased(p: Producer, c: Consumer, phase: Phase)
    requires |p.cells| > 0 && ConsumerOk(p, c) && PhaseOk(p, c.(phase := phase))
    ensures ConsumerOk(p, c.(phase := phase))
  {
  }

  lemma ProbePasses(p: Producer, c: Consumer)
    requires ProducerOk(p) && ConsumerOk(p, c) && c.phase.Probe? && c.copied + c.phase.slots < |p.log|
    ensures ConsumerStep(c, p.cells).phase.Guard?
  {
    HeaderShows(p, c);
  }

  lemma ProbeOk(p: Producer, c: Consumer)
    requires |p.cells| > 0 && ConsumerOk(p, c) && c.phase.Probe?
    ensures ConsumerOk(p, ConsumerStep(c, p.cells))
  {
    var Probe(slots, runLast, found) := c.phase;
    if slots < |p.cells| && !IsEmpty(At(p.cells, c.next + slots)) {
      assert ConsumerStep(c, p.cells) == c.(phase := Guard(slots, runLast, found));
      Rephased(p, c, Guard(slots, runLast, found));
    } else {
      ScanEnds(p, c);
    }
  }

  /** A scan may end wherever it is: the run so far is whole records. */
  lemma ScanEnds(p: Producer, c: Consumer)
    requires |p.cells| > 0 && ConsumerOk(p, c) && Scanning(c.phase)
    ensures ConsumerOk(p, EndScan(c, c.phase.slots, c.phase.runLast, c.phase.found))
  {
    Rephased(p, c, EndScan(c, c.phase.slots, c.phase.runLast, c.phase.found).phase);
  }

  /** The guard lets a slot pass exactly when it is a finished header or an old slot that is not quiet. */
  lemma GuardPasses(p: Producer, c: Consumer)
    requires ProducerOk(p) && ConsumerOk(p, c) && c.phase.Guard?
    ensures ConsumerStep(c, p.cells).phase.Accepted? <==> c.copied + c.phase.slots < |p.log| || !Quiet(p)
  {
    HeaderShows(p, c);
  }

  lemma GuardOk(p: Producer, c: Consumer)
    requires ProducerOk(p) && ConsumerOk(p, c) && c.phase.Guard?
    requires c.copied + c.phase.slots < |p.log| || Quiet(p)
    ensures ConsumerOk(p, ConsumerStep(c, p.cells))
  {
    GuardPasses(p, c);
    if c.copied + c.phase.slots < |p.log| { HeaderAccepted(p, c); } else { ScanEnds(p, c); }
  }

  lemma HeaderAccepted(p: Producer, c: Consumer)
    requires ProducerOk(p) && ConsumerOk(p, c) && c.phase.Guard? && c.copied + c.phase.slots < |p.log|
    ensures ConsumerOk(p, ConsumerStep(c, p.cells))
  {
    HeaderShows(p, c);
    var Guard(slots, runLast, found) := c.phase;
    var passed := Accepted(slots, runLast, found, p.log[c.copied + slots].tick_);
    assert ConsumerStep(c, p.cells) == c.(phase := passed);
    Rephased(p, c, passed);
  }

  lemma AcceptedOk(p: Producer, c: Consumer)
    requires ProducerOk(p) && ConsumerOk(p, c) && c.phase.Accepted?
    ensures ConsumerOk(p, ConsumerStep(c, p.cells))
    ensures ConsumerStep(c, p.cells).phase.Sized?
  {
    var Accepted(slots, runLast, found, seen) := c.phase;
    var header := p.log[c.copied + slots];
    HeaderShows(p, c);
    SizeTaken(c, p.cells, header);
    Rephased(p, c, Sized(slots, runLast, found, seen, RecordSlots(header)));
  }

  lemma SizeTaken(c: Consumer, cells: seq<Slot>, header: Slot)
    requires |cells| > 0 && c.phase.Accepted? && At(cells, c.next + c.phase.slots) == header
    requires c.phase.slots + RecordSlots(header) <= |cells|
    ensures ConsumerStep(c, cells) ==
            c.(phase := Sized(c.phase.slots, c.phase.runLast, c.phase.found, c.phase.seen, RecordSlots(header)))
  {
  }

  /** The tick loaded again after the fence is the one the guard saw. */
  lemma SizedOk(p: Producer, c: Consumer)
    requires ProducerOk(p) && ConsumerOk(p, c) && c.phase.Sized?
    ensures ConsumerOk(p, ConsumerStep(c, p.cells))
    ensures At(p.cells, c.next + c.phase.slots).tick_ == c.phase.seen > c.phase.runLast
  {
    var Sized(slots, runLast, found, seen, size) := c.phase;
    HeaderShows(p, c);
    var next := Probe(slots + size, seen, found + 1);
    assert ConsumerStep(c, p.cells) == c.(phase := next);
    BoundaryAdvances(p, c.copied, c.copied + slots, c.last, runLast, found);
    Rephased(p, c, next);
  }

  lemma BoundariesJoin(p: Producer, c: Consumer, slots: nat, runLast: Tick, found: nat)
    requires Boundary(p, 0, c.copied, 0, c.last, c.records)
    requires Boundary(p, c.copied, c.copied + slots, c.last, runLast, found)
    ensures Boundary(p, 0, c.copied + slots, 0, runLast, c.records + found)
    ensures Boundary(p, c.copied + slots, c.copied + slots, runLast, runLast, 0)
  {
    RunsJoin(p.log, 0, c.copied, c.copied + slots, 0, c.last, runLast, c.records, found);
  }

  lemma CopyOneOk(p: Producer, c: Consumer)
    requires ProducerOk(p) && ConsumerOk(p, c) && c.phase.Copying? && c.phase.done < c.phase.slots
    ensures ConsumerOk(p, ConsumerStep(c, p.cells))
  {
    ReadsTheLog(p, c, c.phase.done);
  }

  lemma CopyDoneOk(p: Producer, c: Consumer)
    requires |p.cells| > 0 && ConsumerOk(p, c) && c.phase.Copying? && c.phase.done == c.phase.slots
    ensures ConsumerOk(p, ConsumerStep(c, p.cells))
  {
    BoundariesJoin(p, c, c.phase.slots, c.phase.runLast, c.phase.found);
    WrapOfSum(c.copied, c.phase.slots, |p.cells|);
    var c' := Consumer(Wrap(c.next + c.phase.slots, |p.cells|), c.phase.runLast, c.copied + c.phase.slots,
                       c.records + c.phase.found, c.out, Idle);
    assert ConsumerOk(p, c');
    if c.phase.slots == |p.cells| { Rephased(p, c', Probe(0, c.phase.runLast, 0)); }
  }

  /** A server about to compare the tick of a slot behind everything finished. */
  predicate CaughtUp(w: World) {
    w.c.phase.Guard? && w.c.copied + w.c.phase.slots == |w.p.log|
  }

  lemma {:induction false} ConsumerStepOk(p: Producer, c: Consumer)
    requires ProducerOk(p) && ConsumerOk(p, c) && (CaughtUp(World(p, c)) ==> Quiet(p))
    ensures ConsumerOk(p, ConsumerStep(c, p.cells))
  {
    match c.phase {
      case Idle => BoundariesJoin(p, c.(copied := 0, last := 0, records := 0), c.copied, c.last, c.records);
      case Probe(_, _, _) => ProbeOk(p, c);
      case Guard(_, _, _) => GuardOk(p, c);
      case Accepted(_, _, _, _) => AcceptedOk(p, c);
      case Sized(_, _, _, _, _) => SizedOk(p, c);
      case Copying(slots, _, _, done) => if done < slots { CopyOneOk(p, c); } else { CopyDoneOk(p, c); }
    }
  }

  // ------------------------------------------------------------------ whole runs

  function Exec(w: World, run: seq<Action>): (w': World)
    requires |w.p.cells| > 0
    ensures |w'.p.cells| == |w.p.cells|
    decreases |run|
  {
    if run == [] then w else Step(Exec(w, run[..|run| - 1]), run[|run| - 1])
  }

  /** Every action of the run keeps the recorder's side of the contract. */
  ghost predicate Legal(w: World, run: seq<Action>)
    requires |w.p.cells| > 0
    decreases |run|
  {
    run == [] || (Legal(w, run[..|run| - 1]) && Enabled(Exec(w, run[..|run| - 1]), run[|run| - 1]))
  }

  /**
   A step that misleads nobody: the server compares the tick of a slot behind everything finished only
   while that slot is quiet, and the recorder takes back no slot the server has reached.
   */
  predicate Harmless(w: World, a: Action)
    requires |w.p.cells| > 0
  {
    (a.Consume? && CaughtUp(w) ==> Quiet(w.p)) && (a.Retract? ==> Reach(w.c) <= a.keep)
  }

  ghost predicate Undisturbed(w: World, run: seq<Action>)
    requires |w.p.cells| > 0
    decreases |run|
  {
    run == [] || (Undisturbed(w, run[..|run| - 1]) && Harmless(Exec(w, run[..|run| - 1]), run[|run| - 1]))
  }

  lemma StepOk(w: World, a: Action)
    requires Ok(w) && Enabled(w, a) && Harmless(w, a)
    ensures Ok(Step(w, a))
  {
    if a.Consume? {
      ConsumerStepOk(w.p, w.c);
    } else {
      ProducerStepOk(w, a);
      ProducerStepKeepsConsumer(w, a);
    }
  }

  lemma {:induction false} RunOk(w: World, run: seq<Action>)
    requires Ok(w) && Legal(w, run) && Undisturbed(w, run)
    ensures Ok(Exec(w, run))
    decreases |run|
  {
    if run != [] {
      RunOk(w, run[..|run| - 1]);
      StepOk(Exec(w, run[..|run| - 1]), run[|run| - 1]);
    }
  }

  /** The server has let a slot pass that no finished record begins at. */
  predicate Phantom(w: World) {
    w.c.phase.Accepted? && w.c.copied + w.c.phase.slots >= |w.p.log|
  }

  /** A server that has caught up takes a phantom record exactly when the old slot is not quiet. */
  lemma PhantomExactlyWhenNotQuiet(w: World)
    requires Ok(w) && w.c.phase.Guard?
    ensures Phantom(Step(w, Consume)) <==> CaughtUp(w) && !Quiet(w.p)
  {
    GuardPasses(w.p, w.c);
  }

  /** The server has committed itself to a slot the log does not have: a phantom, or one taken back. */
  predicate Ahead(w: World) {
    Reach(w.c) > |w.p.log|
  }

  lemma OkIsNotAhead(w: World)
    requires Ok(w)
    ensures !Ahead(w)
  {
  }

  lemma HarmGetsAhead(w: World, a: Action)
    requires Ok(w) && Enabled(w, a) && !Harmless(w, a)
    ensures Ahead(Step(w, a))
  {
    if a.Consume? { PhantomExactlyWhenNotQuiet(w); }
  }

  ghost predicate AlwaysOk(w: World, run: seq<Action>)
    requires |w.p.cells| > 0
  {
    forall k :: 0 <= k <= |run| ==> Ok(Exec(w, run[..k]))
  }

  ghost predicate NeverAhead(w: World, run: seq<Action>)
    requires |w.p.cells| > 0
  {
    forall k :: 0 <= k <= |run| ==> !Ahead(Exec(w, run[..k]))
  }

  lemma PrefixOfPrefix(run: seq<Action>, n: nat, k: nat)
    requires k <= n <= |run|
    ensures run[..n][..k] == run[..k]
  {
  }

  lemma {:induction false} UndisturbedIsEnough(w: World, run: seq<Action>)
    requires Ok(w) && Legal(w, run) && Undisturbed(w, run)
    ensures AlwaysOk(w, run)
    decreases |run|
  {
    RunOk(w, run);
    assert run[..|run|] == run;
    if run != [] {
      UndisturbedIsEnough(w, run[..|run| - 1]);
      forall k | 0 <= k < |run|
        ensures Ok(Exec(w, run[..k]))
      {
        PrefixOfPrefix(run, |run| - 1, k);
      }
    }
  }

  lemma {:induction false} UndisturbedIsNeeded(w: World, run: seq<Action>)
    requires Ok(w) && Legal(w, run) && NeverAhead(w, run)
    ensures Undisturbed(w, run)
    decreases |run|
  {
    if run != [] {
      var before, a := run[..|run| - 1], run[|run| - 1];
      forall k | 0 <= k <= |before|
        ensures !Ahead(Exec(w, before[..k]))
      {
        PrefixOfPrefix(run, |run| - 1, k);
      }
      UndisturbedIsNeeded(w, before);
      RunOk(w, before);
      assert run[..|run|] == run;
      if !Harmless(Exec(w, before), a) { HarmGetsAhead(Exec(w, before), a); }
    }
  }

  /**
   The exact condition: along any legal run, records taken back or not, everything stays in order, and the
   server is never ahead of the log, if and only if every slot it compares behind the log is quiet and
   nothing it has reached is taken back.
   */
  lemma {:induction false} InOrderExactlyWhenUndisturbed(w: World, run: seq<Action>)
    requires Ok(w) && Legal(w, run)
    ensures AlwaysOk(w, run) <==> Undisturbed(w, run)
    ensures NeverAhead(w, run) <==> Undisturbed(w, run)
  {
    if Undisturbed(w, run) { UndisturbedIsEnough(w, run); }
    if AlwaysOk(w, run) {
      forall k | 0 <= k <= |run|
        ensures !Ahead(Exec(w, run[..k]))
      {
        OkIsNotAhead(Exec(w, run[..k]));
      }
    }
    if NeverAhead(w, run) { UndisturbedIsNeeded(w, run); }
  }

  /**
   Exactly-once, in-order delivery over any interleaving and any number of laps: what the server has
   handed on is always an initial segment of what the recorder has finished and kept, between copies it
   is whole records, and the server's three counters say which.
   */
  lemma {:induction false} DeliversInOrder(cap: nat, run: seq<Action>)
    requires cap > 0 && Legal(Initial(cap), run) && Undisturbed(Initial(cap), run)
    ensures var w := Exec(Initial(cap), run);
            && w.c.out <= w.p.log
            && !w.c.phase.Failed?
            && w.c.next == Wrap(w.c.copied, cap)
            && Run(w.p.log, 0, w.c.copied, 0, w.c.last, w.c.records)
            && |w.c.out| == w.c.copied + if w.c.phase.Copying? then w.c.phase.done else 0
  {
    InitialOk(cap);
    RunOk(Initial(cap), run);
  }

  // ------------------------------------------------------------------ whole records

  /** The recorder's finished records after an action: one more, or only the first so many kept. */
  function RecordsAfter(records: seq<seq<Slot>>, p: Producer, a: Action): seq<seq<Slot>>
    requires |p.cells| > 0
  {
    match a
    case Add(slot) => records + [[slot]]
    case StoreTick(tick) => records + [OpenSlots(p, tick)]
    case Retract(_, _, count) => if count <= |records| then records[..count] else records
    case _ => records
  }

  /** The records of a run in order: one for every `Add` and every `StoreTick`, less those taken back. */
  function RecordsOf(w: World, run: seq<Action>): seq<seq<Slot>>
    requires |w.p.cells| > 0
    decreases |run|
  {
    if run == [] then [] else
    RecordsAfter(RecordsOf(w, run[..|run| - 1]), Exec(w, run[..|run| - 1]).p, run[|run| - 1])
  }

  /** The log is these records one after another, each announced by its header. */
  ghost predicate IsLogOf(p: Producer, records: seq<seq<Slot>>) {
    p.log == Flatten(records) && WellMade(records, 0) && LastTick(records, 0) == p.last
  }

  lemma StepFinishes(w: World, a: Action, records: seq<seq<Slot>>)
    requires |w.p.cells| > 0 && Enabled(w, a) && IsLogOf(w.p, records)
    ensures IsLogOf(Step(w, a).p, RecordsAfter(records, w.p, a))
  {
    match a {
      case Add(slot) => RecordJoins(records, [slot]);
      case StoreTick(tick) => RecordJoins(records, OpenSlots(w.p, tick));
      case Retract(keep, last, count) => KeptRecords(records, keep, last, count);
      case _ =>
    }
  }

  lemma RecordJoins(records: seq<seq<Slot>>, record: seq<Slot>)
    requires WellMade(records, 0) && record != [] && RecordSlots(record[0]) == |record|
    requires record[0].tick_ > LastTick(records, 0)
    ensures Flatten(records + [record]) == Flatten(records) + record
    ensures WellMade(records + [record], 0) && LastTick(records + [record], 0) == record[0].tick_
  {
    FlattenSnoc(records, record);
    WellMadeSnoc(records, record, 0);
  }

  /** The recorder's side of a run: its log is its records one after another, each announced by its header. */
  lemma {:induction false} LogIsItsRecords(cap: nat, run: seq<Action>)
    requires cap > 0 && Legal(Initial(cap), run)
    ensures IsLogOf(Exec(Initial(cap), run).p, RecordsOf(Initial(cap), run))
    decreases |run|
  {
    if run != [] {
      var before, a := run[..|run| - 1], run[|run| - 1];
      LogIsItsRecords(cap, before);
      StepFinishes(Exec(Initial(cap), before), a, RecordsOf(Initial(cap), before));
    }
  }

  /** What the server has passed is exactly the first so many records the recorder finished. */
  lemma {:induction false} DeliversWholeRecords(cap: nat, run: seq<Action>)
    requires cap > 0 && Legal(Initial(cap), run) && Undisturbed(Initial(cap), run)
    ensures var c, records := Exec(Initial(cap), run).c, RecordsOf(Initial(cap), run);
            c.records <= |records| && c.copied <= |c.out| && c.out[..c.copied] == Flatten(records[..c.records])
  {
    var w := Exec(Initial(cap), run);
    DeliversInOrder(cap, run);
    LogIsItsRecords(cap, run);
    WalkedIsFirstRecords(RecordsOf(Initial(cap), run), w.c.copied, w.c.last, w.c.records);
    assert w.c.out[..w.c.copied] == w.p.log[..w.c.copied];
  }

  // ------------------------------------------------------------------ when old slots stay quiet

  /** What the cell of the next header held before this lap: nothing, or a slot one lap older. */
  function StaleTick(p: Producer): Tick
    requires |p.cells| > 0
  {
    if |p.log| >= |p.cells| then p.log[|p.log| - |p.cells|].tick_ else 0
  }

  /** Nothing taken back lies behind the log: the next header's cell still holds what it held a lap ago. */
  ghost predicate Level(p: Producer) {
    |p.cells| > 0 && p.high == |p.log| + p.open && At(p.cells, |p.log|).tick_ == StaleTick(p)
  }

  /** An intact cell of the finished log, or the zeros of a first lap, at the next header's cell. */
  lemma NextCellIsStale(p: Producer)
    requires 0 < |p.cells| && p.high == |p.log| && p.open == 0 && Intact(p)
    ensures Level(p)
  {
    if |p.log| >= |p.cells| {
      AtPeriodic(p.cells, |p.log| - |p.cells|);
    }
  }

  lemma LevelKept(w: World, a: Action)
    requires ProducerOk(w.p) && Level(w.p) && Enabled(w, a) && !a.Retract?
    ensures Level(Step(w, a).p)
  {
    match a {
      case Add(slot) =>
        AddOk(w.p, slot);
        NextCellIsStale(ProducerStep(w.p, a));
      case StoreTick(tick) =>
        StoreTickOk(w.p, tick);
        NextCellIsStale(ProducerStep(w.p, a));
      case StoreBody(k, slot) => PutOnlyThere(w.p.cells, |w.p.log| + k, slot);
      case _ =>
    }
  }

  /** On the first lap only zeros, and at its end the very first header, can be met again. */
  lemma FirstLapIsQuiet(p: Producer)
    requires ProducerOk(p) && Level(p) && |p.log| <= |p.cells|
    ensures Quiet(p)
  {
    var n: nat :| Run(p.log, 0, |p.log|, 0, p.last, n);
  }

  /** A run in which nothing is taken back. */
  ghost predicate Forward(run: seq<Action>) {
    forall i :: 0 <= i < |run| ==> !run[i].Retract?
  }

  lemma {:induction false} LogOnlyGrows(w: World, run: seq<Action>, k: nat)
    requires |w.p.cells| > 0 && k <= |run| && Forward(run)
    ensures |Exec(w, run[..k]).p.log| <= |Exec(w, run).p.log|
    decreases |run|
  {
    if k < |run| {
      assert run[..|run| - 1][..k] == run[..k];
      LogOnlyGrows(w, run[..|run| - 1], k);
    } else {
      assert run[..k] == run;
    }
  }

  lemma {:induction false} FirstLapProbesAreQuiet(w: World, run: seq<Action>)
    requires Ok(w) && Level(w.p) && Legal(w, run) && Forward(run) && |Exec(w, run).p.log| <= |w.p.cells|
    ensures Undisturbed(w, run) && Level(Exec(w, run).p)
    decreases |run|
  {
    if run != [] {
      var before := run[..|run| - 1];
      LogOnlyGrows(w, run, |run| - 1);
      FirstLapProbesAreQuiet(w, before);
      RunOk(w, before);
      FirstLapIsQuiet(Exec(w, before).p);
      LevelKept(Exec(w, before), run[|run| - 1]);
    }
  }

  /** Every event's extension slots, read as slots, carry ticks no later than the event's own. */
  ghost predicate ModestEvents(w: World, run: seq<Action>)
    requires |w.p.cells| > 0
    decreases |run|
  {
    run == [] ||
    (ModestEvents(w, run[..|run| - 1]) &&
     var p, a := Exec(w, run[..|run| - 1]).p, run[|run| - 1];
     a.StoreTick? ==> forall s :: s in OpenSlots(p, a.tick) ==> s.tick_ <= a.tick)
  }

  ghost predicate NoneLater(p: Producer) {
    forall q :: 0 <= q < |p.log| ==> p.log[q].tick_ <= p.last
  }

  lemma {:induction false} ModestProbesAreQuiet(w: World, run: seq<Action>)
    requires Ok(w) && Level(w.p) && NoneLater(w.p) && Legal(w, run) && Forward(run) && ModestEvents(w, run)
    ensures Undisturbed(w, run) && Level(Exec(w, run).p) && NoneLater(Exec(w, run).p)
    decreases |run|
  {
    if run != [] {
      var before, a := run[..|run| - 1], run[|run| - 1];
      ModestProbesAreQuiet(w, before);
      RunOk(w, before);
      LevelKept(Exec(w, before), a);
      ModestStep(Exec(w, before), a);
    }
  }

  lemma ModestStep(w: World, a: Action)
    requires |w.p.cells| > 0 && NoneLater(w.p) && Level(w.p) && Enabled(w, a) && !a.Retract?
    requires a.StoreTick? ==> forall s :: s in OpenSlots(w.p, a.tick) ==> s.tick_ <= a.tick
    ensures NoneLater(Step(w, a).p) && Quiet(w.p)
  {
  }

  ghost predicate OnlyAdds(run: seq<Action>) {
    forall a :: a in run ==> a.Add? || a.Consume?
  }

  lemma {:induction false} AddsAreModest(w: World, run: seq<Action>)
    requires |w.p.cells| > 0 && OnlyAdds(run)
    ensures ModestEvents(w, run) && Forward(run)
    decreases |run|
  {
    if run != [] {
      AddsAreModest(w, run[..|run| - 1]);
      assert run[|run| - 1] in run;
    }
  }

  /** With `add` alone no condition on payloads is left. */
  lemma {:induction false} DeliversAdds(cap: nat, run: seq<Action>)
    requires cap > 0 && Legal(Initial(cap), run) && OnlyAdds(run)
    ensures var w := Exec(Initial(cap), run);
            w.c.out <= w.p.log && Run(w.p.log, 0, w.c.copied, 0, w.c.last, w.c.records)
            && w.c.next == Wrap(w.c.copied, cap)
  {
    InitialOk(cap);
    AddsAreModest(Initial(cap), run);
    ModestProbesAreQuiet(Initial(cap), run);
    DeliversInOrder(cap, run);
  }

  /** Until a full ring has been written, events need no condition either; after that modest ones do. */
  lemma {:induction false} DeliversEvents(cap: nat, run: seq<Action>)
    requires cap > 0 && Legal(Initial(cap), run) && Forward(run)
    requires |Exec(Initial(cap), run).p.log| <= cap || ModestEvents(Initial(cap), run)
    ensures var w := Exec(Initial(cap), run);
            w.c.out <= w.p.log && Run(w.p.log, 0, w.c.copied, 0, w.c.last, w.c.records)
            && w.c.next == Wrap(w.c.copied, cap)
  {
    InitialOk(cap);
    if ModestEvents(Initial(cap), run) {
      ModestProbesAreQuiet(Initial(cap), run);
    } else {
      FirstLapProbesAreQuiet(Initial(cap), run);
    }
    DeliversInOrder(cap, run);
  }

  // ------------------------------------------------------------------ building runs

  ghost predicate Reaches(w: World, run: seq<Action>, v: World)
    requires |w.p.cells| > 0
  {
    Legal(w, run) && Exec(w, run) == v
  }

  lemma Extend(w: World, run: seq<Action>, v: World, a: Action)
    requires |w.p.cells| > 0 && Reaches(w, run, v) && Enabled(v, a)
    ensures Reaches(w, run + [a], Step(v, a))
  {
    assert (run + [a])[..|run|] == run;
  }

  lemma {:induction false} ExtendConsuming(w: World, run: seq<Action>, v: World, n: nat)
      returns (run': seq<Action>, v': World)
    requires |w.p.cells| > 0 && Reaches(w, run, v)
    ensures Reaches(w, run', v') && v' == Consumed(v, n)
    decreases n
  {
    if n == 0 {
      run', v' := run, v;
    } else {
      Extend(w, run, v, Consume);
      run', v' := ExtendConsuming(w, run + [Consume], Step(v, Consume), n - 1);
    }
  }

  lemma {:induction false} ConsumedTwice(v: World, n: nat, m: nat)
    requires |v.p.cells| > 0
    ensures Consumed(Consumed(v, n), m) == Consumed(v, n + m)
    decreases n
  {
    if n > 0 { ConsumedTwice(Step(v, Consume), n - 1, m); }
  }

  function Consumed(v: World, n: nat): (v': World)
    requires |v.p.cells| > 0
    ensures v'.p == v.p
    decreases n
  {
    if n == 0 then v else Consumed(Step(v, Consume), n - 1)
  }
}
