/** The server's copy loop over one mapped ring. */
module CheckPointSource {
  import opened CheckPoint
  import opened Bits
  import opened CallEnds
  import opened Delivery
  import opened DirectWriter
  import opened Layout
  import opened Records
  import opened Ring
  import opened ServerSteps

  /** How a call ends: normally, or where the source throws. */
  datatype Outcome = Copied(any: bool) | RecordTooLong | WriteFailed

  /** What one turn of the scan loop decides. */
  datatype Verdict = Stop | TooLong | Take(slots: nat, tick: Tick)

  /** The server behind a turn of the scan. */
  function Turned(c: Consumer, slots: nat, runLast: Tick, found: nat, verdict: Verdict): Consumer {
    match verdict
    case Stop => EndScan(c, slots, runLast, found)
    case TooLong => c.(phase := Failed)
    case Take(n, tick) => c.(phase := Probe(slots + n, tick, found + 1))
  }

  /** What the two steps of a turn before the fence do, each over what its load shows. */
  lemma GuardSteps(c: Consumer, cells: seq<Slot>, slots: nat, runLast: Tick, found: nat, slot: Slot)
    requires slots < |cells| && slot == At(cells, c.next + slots)
    ensures ConsumerStep(c.(phase := Probe(slots, runLast, found)), cells) ==
            if IsEmpty(slot) then EndScan(c, slots, runLast, found) else c.(phase := Guard(slots, runLast, found))
    ensures ConsumerStep(c.(phase := Guard(slots, runLast, found)), cells) ==
            if slot.tick_ <= runLast then EndScan(c, slots, runLast, found)
            else c.(phase := Accepted(slots, runLast, found, slot.tick_))
  {
  }

  lemma SizeStep(c: Consumer, cells: seq<Slot>, slots: nat, runLast: Tick, found: nat, seen: Tick, slot: Slot)
    requires slots < |cells| && slot == At(cells, c.next + slots)
    ensures ConsumerStep(c.(phase := Accepted(slots, runLast, found, seen)), cells) ==
            if RecordSlots(slot) > |cells| then c.(phase := Failed)
            else if slots + RecordSlots(slot) > |cells| then EndScan(c, slots, runLast, found)
            else c.(phase := Sized(slots, runLast, found, seen, RecordSlots(slot)))
  {
  }

  lemma TakeStep(c: Consumer, cells: seq<Slot>, slots: nat, runLast: Tick, found: nat, seen: Tick, size: nat,
                 slot: Slot)
    requires slots < |cells| && slot == At(cells, c.next + slots)
    ensures ConsumerStep(c.(phase := Sized(slots, runLast, found, seen, size)), cells) ==
            c.(phase := Probe(slots + size, slot.tick_, found + 1))
  {
  }

  ghost predicate ScansFrom(life: nat -> Consumer, t0: nat, t1: nat) {
    forall t: nat :: t0 <= t < t1 ==> Scanning(life(t).phase)
  }

  ghost predicate CopiesFrom(life: nat -> Consumer, t0: nat, t1: nat) {
    forall t: nat :: t0 <= t < t1 ==> life(t).phase.Copying?
  }

  /** No scan that ends within this stretch ends short. */
  ghost predicate FullThrough(life: nat -> Consumer, cap: nat, t0: nat, t1: nat) {
    forall t: nat :: t0 <= t < t1 ==> FullScan(life, cap, t)
  }

  lemma LapIsFull(life: nat -> Consumer, cap: nat, t0: nat, t1: nat, t2: nat)
    requires ScansFrom(life, t0, t1) && CopiesFrom(life, t1, t2) && t1 <= t2
    requires life(t1).phase.Copying? && life(t1).phase.slots == cap
    ensures FullThrough(life, cap, t0, t2)
  {
    forall t: nat | t0 <= t < t2
      ensures FullScan(life, cap, t)
    {
      if t >= t1 { assert life(t).phase.Copying?; }
    }
  }

  /** And what the step behind a copied run does. */
  lemma CopiedStep(c: Consumer, cells: seq<Slot>, slots: nat, runLast: Tick, found: nat)
    requires |cells| > 0
    ensures ConsumerStep(c.(phase := Copying(slots, runLast, found, slots)), cells) ==
            Consumer(Wrap(c.next + slots, |cells|), runLast, c.copied + slots, c.records + found, c.out,
                     if slots < |cells| then Idle else Probe(0, runLast, 0))
  {
  }

  lemma MaskedNext(next: nat, copied: nat, slots: nat, cap: nat)
    requires HasSingleBit(cap) && next == Wrap(copied, cap)
    ensures And(next + slots, cap - 1) == Wrap(next + slots, cap) == Wrap(copied + slots, cap)
  {
    MaskIsWrap(next + slots, cap);
    WrapOfSum(copied, slots, cap);
  }

  class CheckPointSource {
    const capacity: nat
    /** The mapped ring at the server's step `t`. */
    const memory: nat -> Cells
    /** The server's own steps over that ring. */
    ghost const life: nat -> Consumer
    const writer: DirectCheckPointWriter
    /** Server steps taken so far. */
    var clock: nat
    var nextIndex: nat
    var lastTick: Tick
    var copiedSlots: nat
    var copiedLogicalRecords: nat
    ghost var out: seq<Slot>

    ghost predicate Valid()
      reads this, writer, writer.buffer
    {
      && HasSingleBit(capacity) && IsLife(life, memory, capacity)
      && writer.Valid() && writer.Stream() == Bytes(out)
      && ShapeOk(View(Idle), capacity)
    }

    ghost function View(phase: Phase): Consumer
      reads this
    {
      Consumer(nextIndex, lastTick, copiedSlots, copiedLogicalRecords, out, phase)
    }

    /** Between calls the server is where its own steps over the ring's life so far have taken it. */
    ghost predicate Between()
      reads this
    {
      IsLife(life, memory, capacity) && ShapeOk(View(Idle), capacity) && life(clock) == View(Idle)
    }

    ghost predicate AtRest()
      reads this, writer, writer.buffer
    {
      Valid() && Between()
    }

    constructor (capacity: nat, memory: nat -> Cells, writer: DirectCheckPointWriter)
      requires HasSingleBit(capacity) && RingOf(memory, capacity)
      requires writer.Valid() && writer.Stream() == []
      ensures AtRest() && View(Idle) == Initial(capacity).c && clock == 0
      ensures this.capacity == capacity && this.memory == memory && this.writer == writer
    {
      this.capacity, this.memory, this.writer := capacity, memory, writer;
      life := (t: nat) => Steps(Initial(capacity).c, memory, 0, t);
      clock, nextIndex, lastTick, copiedSlots, copiedLogicalRecords, out := 0, 0, 0, 0, 0, [];
    }

    /** One slot of the two mapped views, as it is at time `now`. */
    method Read(now: nat, index: nat) returns (slot: Slot)
      requires RingOf(memory, capacity) && index < 2 * capacity
      ensures slot == At(memory(now), index)
    {
      if index < capacity {
        slot := memory(now)[index];
      } else {
        assert Wrap(index - capacity, capacity) == index - capacity;
        slot := memory(now)[index - capacity];
      }
    }

    /**
     One turn of the scan loop. The header is loaded four times: to see that it is not empty, to compare
     its tick, and after the fence for its size and for the tick to remember.
     */
    method ScanHeader(now: nat, slots: nat, runLast: Tick, ghost records: nat) returns (later: nat, verdict: Verdict)
      requires IsLife(life, memory, capacity) && nextIndex < capacity && slots < capacity
      requires life(now) == View(Probe(slots, runLast, records))
      ensures later > now
      ensures verdict.Take? ==> slots < slots + verdict.slots <= capacity
      ensures life(later) == Turned(View(Idle), slots, runLast, records, verdict) && ScansFrom(life, now, later)
    {
      ghost var c := View(Idle);
      var checkpoint := Read(now, nextIndex + slots);
      GuardSteps(c, memory(now), slots, runLast, records, checkpoint);
      if IsEmpty(checkpoint) {
        return now + 1, Stop;
      }
      later := now + 1;
      assert life(later) == c.(phase := Guard(slots, runLast, records));
      checkpoint := Read(later, nextIndex + slots);
      GuardSteps(c, memory(later), slots, runLast, records, checkpoint);
      if checkpoint.tick_ <= runLast {
        return later + 1, Stop;
      }
      ghost var seen := checkpoint.tick_;
      later := later + 1;
      assert life(later) == c.(phase := Accepted(slots, runLast, records, seen));
      later, verdict := SizeHeader(later, slots, runLast, records, seen);
    }

    /** The part of the turn behind the fence. */
    method SizeHeader(now: nat, slots: nat, runLast: Tick, ghost records: nat, ghost seen: Tick)
        returns (later: nat, verdict: Verdict)
      requires IsLife(life, memory, capacity) && nextIndex < capacity && slots < capacity
      requires life(now) == View(Accepted(slots, runLast, records, seen))
      ensures later > now
      ensures verdict.Take? ==> slots < slots + verdict.slots <= capacity
      ensures life(later) == Turned(View(Idle), slots, runLast, records, verdict) && ScansFrom(life, now, later)
    {
      ghost var c := View(Idle);
      var checkpoint := Read(now, nextIndex + slots);
      SizeStep(c, memory(now), slots, runLast, records, seen, checkpoint);
      var checkpointSlotCount := RecordSlots(checkpoint);
      later := now + 1;
      if checkpointSlotCount > capacity {
        return later, TooLong;
      }
      if slots + checkpointSlotCount > capacity {
        return later, Stop;
      }
      assert life(later) == c.(phase := Sized(slots, runLast, records, seen, checkpointSlotCount));
      checkpoint := Read(later, nextIndex + slots);
      TakeStep(c, memory(later), slots, runLast, records, seen, checkpointSlotCount, checkpoint);
      return later + 1, Take(checkpointSlotCount, checkpoint.tick_);
    }

    /** The scan from time `now`: whatever the ring holds, these are the server's steps up to time `later`. */
    method CommittedRunSlots(now: nat) returns (later: nat, tooLong: bool, slots: nat, runLast: Tick, records: nat)
      requires IsLife(life, memory, capacity) && nextIndex < capacity && life(now) == View(Probe(0, lastTick, 0))
      ensures later > now && slots <= capacity
      ensures life(later) == if tooLong then View(Failed) else EndScan(View(Idle), slots, runLast, records)
      ensures ScansFrom(life, now, later)
    {
      later, slots, runLast, records := now, 0, lastTick, 0;
      while slots < capacity
        invariant now <= later && slots <= capacity && life(later) == View(Probe(slots, runLast, records))
        invariant ScansFrom(life, now, later)
      {
        var verdict;
        later, verdict := ScanHeader(later, slots, runLast, records);
        if !verdict.Take? {
          return later, verdict.TooLong?, slots, runLast, records;
        }
        slots, runLast, records := slots + verdict.slots, verdict.tick, records + 1;
      }
      assert |memory(later)| == capacity;
      later := later + 1;
      tooLong := false;
    }

    /** Reading a run out of the ring, slot by slot, for the writer. */
    method ReadRun(now: nat, slots: nat, ghost runLast: Tick, ghost records: nat) returns (later: nat, run: seq<Slot>)
      requires IsLife(life, memory, capacity) && nextIndex < capacity && slots <= capacity
      requires life(now) == View(Copying(slots, runLast, records, 0))
      ensures later >= now && |run| == slots
      ensures life(later) == View(Copying(slots, runLast, records, slots)).(out := out + run)
      ensures CopiesFrom(life, now, later)
    {
      ghost var c := View(Idle);
      later, run := now, [];
      assert out + run == out;
      while |run| < slots
        invariant now <= later && |run| <= slots && CopiesFrom(life, now, later)
        invariant life(later) == c.(out := c.out + run, phase := Copying(slots, runLast, records, |run|))
      {
        var slot := Read(later, nextIndex + |run|);
        assert c.out + (run + [slot]) == c.out + run + [slot];
        later := later + 1;
        run := run + [slot];
      }
    }

    /** Scanning a run and reading it out; an empty run ends the copy loop. */
    method TakeRun(now: nat) returns (later: nat, tooLong: bool, run: seq<Slot>, runLast: Tick, records: nat)
      requires IsLife(life, memory, capacity) && nextIndex < capacity && life(now) == View(Probe(0, lastTick, 0))
      ensures later > now && |run| <= capacity
      ensures life(later) == if tooLong then View(Failed)
                             else if run == [] then View(Idle)
                             else View(Copying(|run|, runLast, records, |run|)).(out := out + run)
      ensures !tooLong && |run| == capacity ==> FullThrough(life, capacity, now, later)
    {
      var slots;
      run := [];
      later, tooLong, slots, runLast, records := CommittedRunSlots(now);
      if !tooLong && slots > 0 {
        ghost var scanned := later;
        later, run := ReadRun(later, slots, runLast, records);
        if slots == capacity { LapIsFull(life, capacity, now, scanned, later); }
      }
    }

    /** The bookkeeping once the writer has a run. */
    method Advance(slots: nat, runLast: Tick, records: nat, ghost run: seq<Slot>)
      requires HasSingleBit(capacity) && IsLife(life, memory, capacity) && ShapeOk(View(Idle), capacity)
      requires life(clock) == View(Copying(slots, runLast, records, slots)).(out := out + run) && slots == |run|
      modifies this
      ensures clock == old(clock) + 1 && lastTick == runLast && copiedSlots == old(copiedSlots) + slots
      ensures out == old(out) + run && nextIndex == Wrap(old(nextIndex) + slots, capacity)
              && ShapeOk(View(Idle), capacity)
      ensures life(clock) == View(if slots < capacity then Idle else Probe(0, runLast, 0))
    {
      MaskedNext(nextIndex, copiedSlots, slots, capacity);
      CopiedStep(View(Idle).(out := out + run), memory(clock), slots, runLast, records);
      clock := clock + 1;
      nextIndex := And(nextIndex + slots, capacity - 1);
      lastTick := runLast;
      copiedSlots := copiedSlots + slots;
      copiedLogicalRecords := copiedLogicalRecords + records;
      out := out + run;
    }

    /** Handing a run to the writer and moving past it. */
    method HandOver(run: seq<Slot>, runLast: Tick, records: nat) returns (ok: bool)
      requires Valid() && |run| <= capacity
      requires life(clock) == View(Copying(|run|, runLast, records, |run|)).(out := out + run)
      modifies this, writer, writer.buffer
      ensures clock >= old(clock) && (ok ==> clock == old(clock) + 1)
      ensures ok ==> Valid() && lastTick == runLast && copiedSlots == old(copiedSlots) + |run|
      ensures ok ==> life(clock) == View(if |run| < capacity then Idle else Probe(0, runLast, 0))
      ensures !ok ==> exists a :: a in old(writer.kernel) && Fatal(a)
      ensures (forall a :: a in old(writer.kernel) ==> !Fatal(a)) ==> forall a :: a in writer.kernel ==> !Fatal(a)
    {
      ok := writer.Append(run);
      if ok {
        BytesConcat(out, run);
        Advance(|run|, runLast, records, run);
      }
    }

    /** One turn of the copy loop: take a run and hand it on. `more` says the run filled the ring. */
    method CopyRun() returns (r: Outcome, more: bool)
      requires Valid() && life(clock) == View(Probe(0, lastTick, 0))
      modifies this, writer, writer.buffer
      ensures clock > old(clock) && (more ==> r == Copied(true) && FullThrough(life, capacity, old(clock), clock))
      ensures r.Copied? ==> Valid() && life(clock) == View(if more then Probe(0, lastTick, 0) else Idle)
      ensures r.Copied? ==> if r.any then copiedSlots > old(copiedSlots) else copiedSlots == old(copiedSlots)
      ensures r.RecordTooLong? ==> life(clock).phase.Failed?
      ensures r.WriteFailed? ==> exists a :: a in old(writer.kernel) && Fatal(a)
      ensures (forall a :: a in old(writer.kernel) ==> !Fatal(a)) ==> forall a :: a in writer.kernel ==> !Fatal(a)
    {
      var later, tooLong, run, runLast, records := TakeRun(clock);
      clock := later;
      if tooLong {
        return RecordTooLong, false;
      }
      if run == [] {
        return Copied(false), false;
      }
      var ok := HandOver(run, runLast, records);
      r, more := if ok then Copied(true) else WriteFailed, ok && |run| == capacity;
    }

    /**
     The call is the server's own steps, whatever the ring contains meanwhile, and every slot taken is in
     the output stream. It comes back exactly if some scan ends without filling the ring.
     */
    method CopyAvailable() returns (r: Outcome)
      requires AtRest() && SomeScanEndsShort(life, capacity, clock)
      modifies this, writer, writer.buffer
      ensures clock > old(clock)
      ensures r.Copied? ==> AtRest() && (r.any <==> copiedSlots > old(copiedSlots))
      ensures r.RecordTooLong? ==> life(clock).phase.Failed?
      ensures r.WriteFailed? ==> exists a :: a in old(writer.kernel) && Fatal(a)
    {
      var copiedAny := false;
      ghost var short: nat :| clock <= short && !FullScan(life, capacity, short);
      assert |memory(clock)| == capacity;
      clock := clock + 1;
      while true
        invariant Valid() && old(clock) < clock <= short && life(clock) == View(Probe(0, lastTick, 0))
        invariant copiedSlots >= old(copiedSlots) && (copiedAny <==> copiedSlots > old(copiedSlots))
        invariant (exists a :: a in old(writer.kernel) && Fatal(a)) || forall a :: a in writer.kernel ==> !Fatal(a)
        decreases short - clock
      {
        var more;
        r, more := CopyRun();
        if !r.Copied? {
          return;
        }
        copiedAny := copiedAny || r.any;
        if !more {
          return Copied(copiedAny);
        }
      }
    }

    /**
     The last tick is that of the last record taken in the server's life so far, and those ticks grow
     strictly if and only if none of them, loaded again, had fallen to the last one or below.
     */
    lemma {:induction false} TicksGrow()
      requires Between()
      ensures var taken := TakenTicks(Initial(capacity).c, memory, 0, clock);
              && lastTick == Latest(taken, 0)
              && (Climbs(taken, 0) <==> AlwaysLater(Initial(capacity).c, memory, 0, clock))
    {
      LifeIsSteps(life, memory, capacity, clock);
      TicksClimbExactlyWhen(Initial(capacity).c, memory, 0, clock);
      FrontierIsLatest(Initial(capacity).c, memory, 0, clock);
    }

    /**
     What the code delivers while a recorder writes the ring: if the ring's life is that of a legal run in
     which nothing misleads the server, everything handed to the writer is an initial segment of the slots
     finished and kept, in whole records.
     */
    lemma {:induction false} DeliversTheRun(run: seq<Action>)
      requires Between() && Legal(Initial(capacity), run) && Undisturbed(Initial(capacity), run)
      requires |MemoryOf(Initial(capacity), run)| == clock
      requires forall t :: 0 <= t < clock ==> memory(t) == MemoryOf(Initial(capacity), run)[t]
      ensures out <= Exec(Initial(capacity), run).p.log
      ensures Run(Exec(Initial(capacity), run).p.log, 0, |out|, 0, lastTick, copiedLogicalRecords)
    {
      LifeIsSteps(life, memory, capacity, clock);
      ServerDelivers(capacity, run, memory);
    }

    /** A call during which the ring was not written has copied everything there was. */
    twostate lemma CallWasComplete(p: Producer)
      requires old(AtRest()) && AtRest() && old(clock) < clock
      requires Ok(World(p, old(View(Idle)))) && Quiet(p) && |p.cells| == capacity
      requires forall t: nat :: old(clock) <= t < clock ==> memory(t) == p.cells
      ensures out == p.log && (copiedSlots > old(copiedSlots) <==> old(copiedSlots) < |p.log|)
    {
      LifeIsSteps(life, memory, capacity, old(clock));
      LifeIsSteps(life, memory, capacity, clock);
      StepsCompose(Initial(capacity).c, memory, 0, old(clock), clock);
      CallDrains(p, old(View(Idle)), memory, old(clock), clock);
    }

    /** Every slot taken is in the file, behind it less than a block of zeros. */
    ghost predicate Flushed()
      reads this, writer
    {
      |writer.file| % SLOT_BYTES == 0 &&
      exists n: nat :: n < writer.blockBytes && writer.file == Bytes(out) + Zeros(n)
    }

    /** Everything taken so far is in the file, padded with zeros to whole blocks. */
    method Flush() returns (ok: bool)
      requires Valid()
      modifies writer, writer.buffer
      ensures ok ==> writer.Valid() && Flushed()
      ensures (forall a :: a in old(writer.kernel) ==> !Fatal(a)) ==> ok
    {
      ok := writer.FlushPadded();
    }
  }
}
