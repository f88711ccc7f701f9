/** Why delivery asks that nothing reached be taken back: a record copied, rolled back, and the next one passed over. */
module RolledBack {
  import opened CheckPoint
  import opened Delivery
  import opened Records
  import opened Ring
  import opened ServerSteps

  const FIRST := Slot(1, 0, 0, 7, 1)
  const SECOND := Slot(1, 0, 0, 8, 2)

  /** One record stored and copied, the server at rest behind it. */
  lemma FirstCopied(cap: nat) returns (run: seq<Action>, v: World)
    requires cap >= 2
    ensures Reaches(Initial(cap), run, v) && Ok(v) && Rested(v)
    ensures v.c.out == v.p.log == [FIRST] && v.p.open == 0 && v.p.high == 1 && |v.p.cells| == cap
  {
    var w := Initial(cap);
    InitialOk(cap);
    Extend(w, [], w, Add(FIRST));
    StepOk(w, Add(FIRST));
    LevelKept(w, Add(FIRST));
    run, v := [] + [Add(FIRST)], Step(w, Add(FIRST));
    FirstLapIsQuiet(v.p);
    var n := ComesToRest(v);
    run, v := ExtendConsuming(w, run, v, n);
  }

  /** The cell the server looks at next is still zero after the new record is stored. */
  lemma BehindIsZero(v: World, p: Producer)
    requires Ok(v) && v.c.copied == v.p.high == 1 && |v.p.cells| >= 2 && p.cells == Put(v.p.cells, 0, SECOND)
    ensures At(p.cells, v.c.next) == ZERO_SLOT
  {
    assert At(v.p.cells, 1) == ZERO_SLOT;
    PutOnlyThere(v.p.cells, 0, SECOND);
    AtShifted(p.cells, v.c.copied, 0);
  }

  /**
   Over a ring of any capacity from 2: the server has handed on a record that the recorder then takes back;
   the record stored in its place lies behind the server, and a call comes back at once without it.
   */
  lemma RolledBackIsDelivered(cap: nat) returns (run: seq<Action>)
    requires cap >= 2
    ensures Legal(Initial(cap), run)
    ensures var w := Exec(Initial(cap), run);
            w.c.out == [FIRST] && w.p.log == [SECOND] && w.c.phase.Idle? && Consumed(w, 2) == w
  {
    var w := Initial(cap);
    var v: World;
    run, v := FirstCopied(cap);
    var copied := v;
    assert Run(v.p.log, 0, 0, 0, 0, 0);
    Extend(w, run, v, Retract(0, 0, 0));
    run, v := run + [Retract(0, 0, 0)], Step(v, Retract(0, 0, 0));
    Extend(w, run, v, Add(SECOND));
    run, v := run + [Add(SECOND)], Step(v, Add(SECOND));
    BehindIsZero(copied, v.p);
    var probing := v.c.(phase := Probe(0, v.c.last, 0));
    assert ConsumerStep(v.c, v.p.cells) == probing && ConsumerStep(probing, v.p.cells) == v.c;
    assert Consumed(v, 2) == Consumed(World(v.p, probing), 1);
  }
}
