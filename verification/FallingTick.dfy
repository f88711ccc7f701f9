/** Why the copy loop needs headers that hold: a ring whose ticks fall back between two loads of the scan. */
module FallingTick {
  import opened CallEnds
  import opened CheckPoint
  import opened Delivery
  import opened Ring
  import opened ServerSteps

  /** Every cell shows the guard tick 9, and tick 1 when its tick is loaded again. */
  function Shown(c: Consumer, cap: nat): (cells: seq<Slot>)
    ensures |cells| == cap
  {
    seq(cap, _ => Slot(1, 0, 0, 7, if c.phase.Sized? then 1 else 9))
  }

  function Life(cap: nat, t: nat): Consumer
    requires cap > 0
  {
    if t == 0 then Initial(cap).c else ConsumerStep(Life(cap, t - 1), Shown(Life(cap, t - 1), cap))
  }

  function Memory(cap: nat): nat -> Cells
    requires cap > 0
  {
    (t: nat) => Shown(Life(cap, t), cap)
  }

  lemma {:induction false} LifeIsSteps(cap: nat, t: nat)
    requires cap > 0
    ensures Steps(Initial(cap).c, Memory(cap), 0, t) == Life(cap, t)
  {
    if t > 0 { LifeIsSteps(cap, t - 1); }
  }

  /** Between scans and copies of full laps, the last tick never past 1. */
  predicate Trapped(c: Consumer, cap: nat) {
    match c.phase
    case Probe(slots, runLast, _) => slots <= cap && runLast <= 1
    case Guard(slots, runLast, _) => slots < cap && runLast <= 1
    case Accepted(slots, runLast, _, _) => slots < cap && runLast <= 1
    case Sized(slots, runLast, _, _, size) => slots < cap && size == 1
    case Copying(slots, runLast, _, _) => slots == cap && runLast <= 1
    case _ => false
  }

  lemma TrappedStep(c: Consumer, cap: nat)
    requires cap > 0 && Trapped(c, cap)
    ensures Trapped(ConsumerStep(c, Shown(c, cap)), cap)
  {
  }

  lemma {:induction false} StaysTrapped(cap: nat, t: nat)
    requires cap > 0 && t > 0
    ensures Trapped(Life(cap, t), cap)
  {
    if t > 1 {
      StaysTrapped(cap, t - 1);
      TrappedStep(Life(cap, t - 1), cap);
    } else {
      assert Life(cap, 0) == Initial(cap).c;
    }
  }

  /** Ticks taken in the server's life so far, as `TakenTicks` tells them. */
  function Taken(cap: nat, t: nat): seq<Tick>
    requires cap > 0
  {
    if t == 0 then [] else Taken(cap, t - 1) + if Life(cap, t - 1).phase.Sized? then [1] else []
  }

  lemma SizedTakes(c: Consumer, cap: nat)
    requires cap > 0 && c.phase.Sized?
    ensures Frontier(ConsumerStep(c, Shown(c, cap))) == 1
  {
  }

  lemma {:induction false} TakenIsTaken(cap: nat, t: nat)
    requires cap > 0
    ensures TakenTicks(Initial(cap).c, Memory(cap), 0, t) == Taken(cap, t)
  {
    if t > 0 {
      TakenIsTaken(cap, t - 1);
      LifeIsSteps(cap, t - 1);
      if Life(cap, t - 1).phase.Sized? { SizedTakes(Life(cap, t - 1), cap); }
    }
  }

  /** A turn of the scan is four steps and takes one tick, 1. */
  lemma TurnTakesOne(c: Consumer, cap: nat, slots: nat, runLast: Tick)
    requires slots < cap && runLast <= 1 && c.phase == Probe(slots, runLast, slots)
    ensures var d := c.(phase := Guard(slots, runLast, slots)); ConsumerStep(c, Shown(c, cap)) == d
    ensures var d := c.(phase := Guard(slots, runLast, slots));
            ConsumerStep(d, Shown(d, cap)) == c.(phase := Accepted(slots, runLast, slots, 9))
    ensures var d := c.(phase := Accepted(slots, runLast, slots, 9));
            ConsumerStep(d, Shown(d, cap)) == c.(phase := Sized(slots, runLast, slots, 9, 1))
    ensures var d := c.(phase := Sized(slots, runLast, slots, 9, 1));
            ConsumerStep(d, Shown(d, cap)) == c.(phase := Probe(slots + 1, 1, slots + 1))
  {
  }

  lemma {:induction false} TakesOne(cap: nat, t: nat, slots: nat, runLast: Tick)
    requires slots < cap && runLast <= 1 && Life(cap, t).phase == Probe(slots, runLast, slots)
    ensures Life(cap, t + 4).phase == Probe(slots + 1, 1, slots + 1) && Taken(cap, t + 4) == Taken(cap, t) + [1]
  {
    var c := Life(cap, t);
    TurnTakesOne(c, cap, slots, runLast);
    assert Life(cap, t + 1) == c.(phase := Guard(slots, runLast, slots)) && Taken(cap, t + 1) == Taken(cap, t);
    assert Life(cap, t + 2) == c.(phase := Accepted(slots, runLast, slots, 9)) && Taken(cap, t + 2) == Taken(cap, t);
    assert Life(cap, t + 3) == c.(phase := Sized(slots, runLast, slots, 9, 1)) && Taken(cap, t + 3) == Taken(cap, t);
  }

  lemma {:induction false} TakesTwo(cap: nat, t: nat)
    requires cap >= 2 && t == 1
    ensures Taken(cap, t + 8) == [1, 1]
  {
    assert Life(cap, t - 1).phase == Idle && Life(cap, t).phase == Probe(0, 0, 0) && Taken(cap, t) == [];
    TakesOne(cap, t, 0, 0);
    TakesOne(cap, t + 4, 1, 1);
  }

  lemma {:induction false} NeverRests(cap: nat, t: nat)
    requires cap > 0 && t > 0
    ensures InCall(Steps(Initial(cap).c, Memory(cap), 0, t))
  {
    LifeIsSteps(cap, t);
    StaysTrapped(cap, t);
  }

  /** The first two records are taken with the same tick, and the call never comes back. */
  lemma {:induction false} FallingTickNeverEnds(cap: nat) returns (t: nat)
    requires cap >= 2
    ensures RingOf(Memory(cap), cap)
    ensures TakenTicks(Initial(cap).c, Memory(cap), 0, t) == [1, 1] && !AlwaysLater(Initial(cap).c, Memory(cap), 0, t)
    ensures forall u: nat :: u > 0 ==> InCall(Steps(Initial(cap).c, Memory(cap), 0, u))
  {
    t := 1;
    TakesTwo(cap, t);
    t := t + 8;
    TakenIsTaken(cap, t);
    TicksClimbExactlyWhen(Initial(cap).c, Memory(cap), 0, t);
    assert !Climbs([1, 1], 0) by { assert [1, 1][0] == [1, 1][1]; }
    forall u: nat | u > 0
      ensures InCall(Steps(Initial(cap).c, Memory(cap), 0, u))
    {
      NeverRests(cap, u);
    }
  }
}
