/** Why delivery asks for quiet slots: over a ring of any size, a run that delivers an old payload as a record. */
module LatePayload {
  import opened CheckPoint
  import opened Delivery
  import opened Ring
  import opened ServerSteps

  /** An event of two slots; its extension slot, read as a slot, carries the latest tick there is. */
  const EVENT_HEADER := Slot(5, 4, 16, 7, 1)
  const LATE_PAYLOAD := Slot(0, 0, 0, 0, 0xffff_ffff_ffff_ffff)

  function Record(tick: Tick): Slot {
    Slot(1, 0, 0, 7, tick)
  }

  // ------------------------------------------------------------------ filling the ring

  /** A state of the recorder alone with the event finished and the server not started. */
  ghost predicate Filling(cap: nat, w: World, tick: Tick) {
    && Ok(w) && Level(w.p) && |w.p.cells| == cap && w.c == Initial(cap).c
    && w.p.open == 0 && w.p.last == tick && |w.p.log| == tick as nat + 1 <= cap
    && w.p.log[1] == LATE_PAYLOAD
  }

  lemma EventStored(cap: nat) returns (run: seq<Action>, v: World)
    requires cap >= 2
    ensures Reaches(Initial(cap), run, v) && Filling(cap, v, 1)
  {
    var w := Initial(cap);
    InitialOk(cap);
    run, v := [], w;
    run, v := Does(w, run, v, BeginEvent(2));
    run, v := Does(w, run, v, StoreBody(1, LATE_PAYLOAD));
    run, v := Does(w, run, v, StoreMeta(EVENT_HEADER));
    assert At(v.p.cells, 0) == EVENT_HEADER.(tick_ := 0) && At(v.p.cells, 1) == LATE_PAYLOAD;
    assert OpenSlots(v.p, 1) == [EVENT_HEADER, LATE_PAYLOAD];
    run, v := Does(w, run, v, StoreTick(1));
  }

  /** One more action of the recorder. */
  lemma {:induction false} Does(w: World, run: seq<Action>, v: World, a: Action) returns (run': seq<Action>, v': World)
    requires |w.p.cells| > 0 && Reaches(w, run, v) && Ok(v) && Level(v.p) && Enabled(v, a) && !a.Consume? && !a.Retract?
    ensures Reaches(w, run', v') && Ok(v') && Level(v'.p) && v' == Step(v, a)
  {
    Extend(w, run, v, a);
    StepOk(v, a);
    LevelKept(v, a);
    run', v' := run + [a], Step(v, a);
  }

  lemma {:induction false} RingFilled(cap: nat, run: seq<Action>, v: World, tick: Tick)
      returns (run': seq<Action>, v': World)
    requires 2 <= cap <= 0x1000_0000_0000_0000 && Reaches(Initial(cap), run, v) && Filling(cap, v, tick)
    ensures Reaches(Initial(cap), run', v') && Filling(cap, v', cap - 1)
    decreases cap - tick
  {
    if |v.p.log| == cap {
      run', v' := run, v;
    } else {
      run', v' := Does(Initial(cap), run, v, Add(Record(tick + 1)));
      run', v' := RingFilled(cap, run', v', tick + 1);
    }
  }

  // ------------------------------------------------------------------ the server meets the old payload

  /** Four steps take the one-slot record at the end of the scanned run. */
  lemma TakesRecord(w: World, slots: nat, runLast: Tick, found: nat, header: Slot) returns (n: nat)
    requires slots < |w.p.cells| && w.c.phase == Probe(slots, runLast, found)
    requires At(w.p.cells, w.c.next + slots) == header && header.tick_ > runLast && header.reserved_ == 0
    ensures Consumed(w, n) == World(w.p, w.c.(phase := Probe(slots + 1, header.tick_, found + 1)))
  {
    var tick := header.tick_;
    var guarded := w.c.(phase := Guard(slots, runLast, found));
    var accepted := w.c.(phase := Accepted(slots, runLast, found, tick));
    var sized := w.c.(phase := Sized(slots, runLast, found, tick, 1));
    assert ConsumerStep(w.c, w.p.cells) == guarded && ConsumerStep(guarded, w.p.cells) == accepted;
    assert ConsumerStep(accepted, w.p.cells) == sized;
    assert Consumed(World(w.p, accepted), 2) == Consumed(World(w.p, sized), 1);
    n := 4;
  }

  /** A scan that has seen the latest tick there is stops within two steps. */
  lemma ScanStops(w: World, slots: nat, found: nat) returns (n: nat)
    requires |w.p.cells| > 0 && slots > 0 && w.c.phase == Probe(slots, LATE_PAYLOAD.tick_, found)
    ensures Consumed(w, n) == World(w.p, w.c.(phase := Copying(slots, LATE_PAYLOAD.tick_, found, 0)))
  {
    var stopped := w.c.(phase := Copying(slots, LATE_PAYLOAD.tick_, found, 0));
    if slots >= |w.p.cells| || IsEmpty(At(w.p.cells, w.c.next + slots)) {
      n := 1;
    } else {
      var guarded := w.c.(phase := Guard(slots, LATE_PAYLOAD.tick_, found));
      assert ConsumerStep(w.c, w.p.cells) == guarded && ConsumerStep(guarded, w.p.cells) == stopped;
      n := 2;
    }
  }

  lemma CopiesTwo(w: World, runLast: Tick, found: nat, first: Slot, second: Slot) returns (n: nat)
    requires |w.p.cells| > 0 && w.c.phase == Copying(2, runLast, found, 0)
    requires At(w.p.cells, w.c.next) == first && At(w.p.cells, w.c.next + 1) == second
    ensures Consumed(w, n).c.out == w.c.out + [first, second]
  {
    var one := ConsumerStep(w.c, w.p.cells);
    assert one == w.c.(out := w.c.out + [first], phase := Copying(2, runLast, found, 1));
    assert ConsumerStep(one, w.p.cells).out == w.c.out + [first] + [second];
    assert Consumed(w, 2) == Consumed(World(w.p, one), 1);
    n := 2;
  }

  /** From rest, one new record and the old slot behind it are taken for two records. */
  lemma TakesBoth(w: World, newer: Slot) returns (n: nat)
    requires |w.p.cells| >= 2 && w.c.phase.Idle? && w.c.last < newer.tick_ < LATE_PAYLOAD.tick_ && newer.reserved_ == 0
    requires At(w.p.cells, w.c.next) == newer && At(w.p.cells, w.c.next + 1) == LATE_PAYLOAD
    ensures Consumed(w, n) == World(w.p, w.c.(phase := Probe(2, LATE_PAYLOAD.tick_, 2)))
  {
    var probing := World(w.p, w.c.(phase := Probe(0, w.c.last, 0)));
    assert Step(w, Consume) == probing;
    var first := TakesRecord(probing, 0, w.c.last, 0, newer);
    var second := TakesRecord(Consumed(probing, first), 1, newer.tick_, 1, LATE_PAYLOAD);
    ConsumedTwice(probing, first, second);
    n := 1 + first + second;
  }

  /** And then copied. */
  lemma PhantomCopied(w: World, newer: Slot) returns (n: nat)
    requires |w.p.cells| >= 2 && w.c.phase.Idle? && w.c.last < newer.tick_ < LATE_PAYLOAD.tick_ && newer.reserved_ == 0
    requires At(w.p.cells, w.c.next) == newer && At(w.p.cells, w.c.next + 1) == LATE_PAYLOAD
    ensures Consumed(w, n).c.out == w.c.out + [newer, LATE_PAYLOAD]
  {
    var late := LATE_PAYLOAD.tick_;
    n := TakesBoth(w, newer);
    var m := ScanStops(Consumed(w, n), 2, 2);
    ConsumedTwice(w, n, m);
    n := n + m;
    m := CopiesTwo(Consumed(w, n), late, 2, newer, LATE_PAYLOAD);
    ConsumedTwice(w, n, m);
    n := n + m;
  }

  /** The cells the server meets: the new record, and behind it the payload of one lap ago. */
  lemma NextCells(w: World, newer: Slot)
    requires Ok(w) && Level(w.p) && w.p.open == 0 && w.c.phase.Idle? && w.c.copied == |w.p.cells| >= 2
    requires |w.p.log| == |w.p.cells| + 1 && w.p.log[|w.p.cells|] == newer && w.p.log[1] == LATE_PAYLOAD
    ensures At(w.p.cells, w.c.next) == newer && At(w.p.cells, w.c.next + 1) == LATE_PAYLOAD
  {
    var cap := |w.p.cells|;
    ReadsTheLog(w.p, w.c, 0);
    ReadsTheLog(w.p, w.c, 1);
    assert At(w.p.cells, 1) == w.p.log[1];
    AtPeriodic(w.p.cells, 1);
  }

  /**
   Without the payload condition delivery fails, over a ring of any size a machine can map: an event whose
   extension slot reads as a late tick, records up to a full ring, all of it copied, one more record, and
   the server then copies the old payload as a record of its own.
   */
  lemma {:induction false} LatePayloadIsDelivered(cap: nat) returns (run: seq<Action>)
    requires 2 <= cap <= 0x1000_0000_0000_0000
    ensures Legal(Initial(cap), run)
    ensures var w := Exec(Initial(cap), run);
            |w.p.log| == cap + 1 && w.p.log[1] == LATE_PAYLOAD && w.c.out == w.p.log + [LATE_PAYLOAD]
  {
    var w, newer := Initial(cap), Record(cap);
    var v: World;
    run, v := EventStored(cap);
    run, v := RingFilled(cap, run, v, 1);
    FirstLapIsQuiet(v.p);
    var n := ComesToRest(v);
    run, v := ExtendConsuming(w, run, v, n);
    run, v := Does(w, run, v, Add(newer));
    NextCells(v, newer);
    n := PhantomCopied(v, newer);
    var out := v.c.out;
    assert out + [newer, LATE_PAYLOAD] == v.p.log + [LATE_PAYLOAD];
    run, v := ExtendConsuming(w, run, v, n);
  }
}
