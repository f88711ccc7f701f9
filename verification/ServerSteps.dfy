/**
 The server on its own: its steps over the ring's contents as they are at each step. `memory(t)` is
 the mapped ring at the server's step `t`; whatever the recorder does is whatever changes it.
 */
module ServerSteps {
  import opened CheckPoint
  import opened Delivery
  import opened Records
  import opened Ring

  /** What a mapped ring shows at one moment; its life is one of these for each step of the server. */
  type Cells = s: seq<Slot> | |s| > 0 witness [ZERO_SLOT]

  ghost predicate RingOf(memory: nat -> Cells, cap: nat) {
    cap > 0 && forall t: nat :: |memory(t)| == cap
  }

  function Steps(c: Consumer, memory: nat -> Cells, t0: nat, t1: nat): Consumer
    requires t0 <= t1
    decreases t1 - t0
  {
    if t0 == t1 then c else ConsumerStep(Steps(c, memory, t0, t1 - 1), memory(t1 - 1))
  }

  lemma {:induction false} StepsCompose(c: Consumer, memory: nat -> Cells, t0: nat, t1: nat, t2: nat)
    requires t0 <= t1 <= t2
    ensures Steps(c, memory, t0, t2) == Steps(Steps(c, memory, t0, t1), memory, t1, t2)
    decreases t2
  {
    if t1 < t2 { StepsCompose(c, memory, t0, t1, t2 - 1); }
  }

  /** `life(t)` is the server after `t` steps from its start over `memory`. */
  ghost predicate IsLife(life: nat -> Consumer, memory: nat -> Cells, cap: nat) {
    RingOf(memory, cap) && life(0) == Initial(cap).c &&
    forall t: nat {:trigger memory(t)} :: life(t + 1) == ConsumerStep(life(t), memory(t))
  }

  lemma {:induction false} LifeIsSteps(life: nat -> Consumer, memory: nat -> Cells, cap: nat, t: nat)
    requires IsLife(life, memory, cap)
    ensures life(t) == Steps(Initial(cap).c, memory, 0, t)
  {
    if t > 0 {
      LifeIsSteps(life, memory, cap, t - 1);
      assert life(t - 1 + 1) == ConsumerStep(life(t - 1), memory(t - 1));
    }
  }

  // ------------------------------------------------------------------ under a recorder

  /** The ring's contents at each server step of a run. */
  function MemoryOf(w: World, run: seq<Action>): seq<seq<Slot>>
    requires |w.p.cells| > 0
    decreases |run|
  {
    if run == [] then [] else
    var before := run[..|run| - 1];
    MemoryOf(w, before) + if run[|run| - 1].Consume? then [Exec(w, before).p.cells] else []
  }

  lemma {:induction false} ServerSeesTheRun(w: World, run: seq<Action>, memory: nat -> Cells)
    requires RingOf(memory, |w.p.cells|)
    requires forall t :: 0 <= t < |MemoryOf(w, run)| ==> memory(t) == MemoryOf(w, run)[t]
    ensures Steps(w.c, memory, 0, |MemoryOf(w, run)|) == Exec(w, run).c
    decreases |run|
  {
    if run != [] {
      var before := run[..|run| - 1];
      assert forall t :: 0 <= t < |MemoryOf(w, before)| ==> MemoryOf(w, before)[t] == MemoryOf(w, run)[t];
      ServerSeesTheRun(w, before, memory);
    }
  }

  /** Delivery, told of the server's own steps while a recorder writes the ring it maps. */
  lemma {:induction false} ServerDelivers(cap: nat, run: seq<Action>, memory: nat -> Cells)
    requires RingOf(memory, cap) && Legal(Initial(cap), run) && Undisturbed(Initial(cap), run)
    requires forall t :: 0 <= t < |MemoryOf(Initial(cap), run)| ==> memory(t) == MemoryOf(Initial(cap), run)[t]
    ensures var c, p := Steps(Initial(cap).c, memory, 0, |MemoryOf(Initial(cap), run)|), Exec(Initial(cap), run).p;
            c.out <= p.log && !c.phase.Failed? && Run(p.log, 0, c.copied, 0, c.last, c.records)
  {
    ServerSeesTheRun(Initial(cap), run, memory);
    DeliversInOrder(cap, run);
  }

  // ------------------------------------------------------------------ over an idle ring

  /** A scan over a ring nobody writes only ends at the end of the log. */
  ghost predicate Draining(p: Producer, c: Consumer)
    requires |p.cells| > 0
  {
    ConsumerOk(p, c) &&
    match c.phase
    case Idle => c.copied == |p.log|
    case Copying(slots, _, _, _) => c.copied + slots == |p.log|
    case _ => true
  }

  /** How far a scan over a ring that is not written gets in one step. */
  ghost predicate ScansOn(p: Producer, c: Consumer, d: Consumer) {
    match c.phase
    case Probe(slots, _, _) => d.phase.Guard? || c.copied + slots == |p.log|
    case Guard(slots, _, _) => d.phase.Accepted? || c.copied + slots == |p.log|
    case Accepted(_, _, _, _) => d.phase.Sized?
    case _ => true
  }

  lemma ScanStepsOn(p: Producer, c: Consumer)
    requires ProducerOk(p) && Quiet(p) && ConsumerOk(p, c)
    ensures ScansOn(p, c, ConsumerStep(c, p.cells))
  {
    if c.phase.Probe? && c.copied + c.phase.slots < |p.log| { ProbePasses(p, c); }
    if c.phase.Guard? { GuardPasses(p, c); }
    if c.phase.Accepted? { AcceptedOk(p, c); }
  }

  lemma {:induction false} DrainingStep(p: Producer, c: Consumer)
    requires ProducerOk(p) && Quiet(p) && ConsumerOk(p, c) && (c.phase.Idle? || Draining(p, c))
    ensures Draining(p, ConsumerStep(c, p.cells))
  {
    ConsumerStepOk(p, c);
    ScanStepsOn(p, c);
  }

  lemma {:induction false} LastStep(c: Consumer, memory: nat -> Cells, t0: nat, t1: nat) returns (b: Consumer)
    requires t0 < t1
    ensures b == Steps(c, memory, t0, t1 - 1) && ConsumerStep(b, memory(t1 - 1)) == Steps(c, memory, t0, t1)
  {
    b := Steps(c, memory, t0, t1 - 1);
  }

  /**
   Completeness: when the ring is not written during the call, `copy_available` comes back to rest only
   with the whole backlog copied, a backlog of exactly one full ring included.
   */
  lemma {:induction false} CallDrains(p: Producer, c: Consumer, memory: nat -> Cells, t0: nat, t1: nat)
    requires Ok(World(p, c)) && Quiet(p) && c.phase.Idle?
    requires RingOf(memory, |p.cells|) && t0 < t1 && forall t: nat :: t0 <= t < t1 ==> memory(t) == p.cells
    ensures Draining(p, Steps(c, memory, t0, t1))
    ensures Steps(c, memory, t0, t1).phase.Idle? ==> Steps(c, memory, t0, t1).out == p.log
    decreases t1
  {
    var b := LastStep(c, memory, t0, t1);
    if t0 + 1 < t1 {
      CallDrains(p, c, memory, t0, t1 - 1);
    }
    DrainingStep(p, b);
    DrainedHasAll(p, Steps(c, memory, t0, t1));
  }

  lemma DrainedHasAll(p: Producer, c: Consumer)
    requires |p.cells| > 0 && Draining(p, c)
    ensures c.phase.Idle? ==> c.out == p.log
  {
  }

  function Stage(p: Producer, c: Consumer): nat {
    if c.phase.Idle? then if c.copied == |p.log| then 0 else 3
    else if Scanning(c.phase) then 2 else 1
  }

  function Left(p: Producer, c: Consumer): int {
    if Scanning(c.phase) then |p.log| - c.copied - c.phase.slots
    else if c.phase.Copying? then c.phase.slots - c.phase.done else 0
  }

  function Turn(c: Consumer): nat {
    if c.phase.Probe? then 3 else if c.phase.Guard? then 2 else if c.phase.Accepted? then 1 else 0
  }

  ghost predicate Rested(w: World) {
    w.c.phase.Idle? && w.c.copied == |w.p.log|
  }

  /** `d` is nearer to rest than `c`. */
  ghost predicate Nearer(p: Producer, c: Consumer, d: Consumer) {
    d.copied > c.copied ||
    (d.copied == c.copied &&
     (Stage(p, d) < Stage(p, c) ||
      (Stage(p, d) == Stage(p, c) &&
       (Left(p, d) < Left(p, c) || (Left(p, d) == Left(p, c) && Turn(d) < Turn(c))))))
  }

  lemma WithinLog(p: Producer, c: Consumer)
    requires |p.cells| > 0 && ConsumerOk(p, c)
    ensures c.copied <= |p.log| && Left(p, c) >= 0 && !c.phase.Failed?
    ensures (c.phase.Copying? ==> c.phase.slots > 0) && (c.phase.Sized? ==> c.phase.size > 0)
  {
  }

  lemma MovesNearer(p: Producer, c: Consumer, d: Consumer)
    requires |p.cells| > 0 && d == ConsumerStep(c, p.cells) && ScansOn(p, c, d) && !c.phase.Failed?
    requires Left(p, c) >= 0 && (c.phase.Copying? ==> c.phase.slots > 0) && (c.phase.Sized? ==> c.phase.size > 0)
    requires c.phase.Idle? ==> c.copied < |p.log|
    ensures Nearer(p, c, d)
  {
  }

  /** Over a ring that is not written every step brings the server nearer to rest. */
  lemma {:induction false} StepNearer(w: World, d: Consumer)
    requires Ok(w) && Quiet(w.p) && !Rested(w) && d == ConsumerStep(w.c, w.p.cells)
    ensures Nearer(w.p, w.c, d)
  {
    WithinLog(w.p, w.c);
    ScanStepsOn(w.p, w.c);
    MovesNearer(w.p, w.c, d);
  }

  /**
   Completeness, the other half: left alone with the ring, the server does come to rest, from any state
   it can be in, and has then copied everything the recorder finished.
   */
  lemma {:induction false} ComesToRest(w: World) returns (n: nat)
    requires Ok(w) && Quiet(w.p)
    ensures Ok(Consumed(w, n)) && Rested(Consumed(w, n)) && Consumed(w, n).c.out == w.p.log
    decreases |w.p.log| - w.c.copied, Stage(w.p, w.c), Left(w.p, w.c), Turn(w.c)
  {
    if Rested(w) {
      n := 0;
      DrainedHasAll(w.p, w.c);
    } else {
      var v := Step(w, Consume);
      StepOk(w, Consume);
      StepNearer(w, v.c);
      WithinLog(w.p, w.c);
      WithinLog(v.p, v.c);
      n := ComesToRest(v);
      n := n + 1;
    }
  }

  /** Left alone with a ring in which an old slot is not quiet, the server takes that slot for a record. */
  lemma {:induction false} GetsMisled(w: World) returns (n: nat)
    requires Ok(w) && !Quiet(w.p)
    ensures Phantom(Consumed(w, n))
    decreases |w.p.log| - w.c.copied, if w.c.phase.Idle? then 3 else Stage(w.p, w.c), Left(w.p, w.c), Turn(w.c)
  {
    var v := Step(w, Consume);
    if CaughtUp(w) {
      n := 1;
      PhantomExactlyWhenNotQuiet(w);
      assert Consumed(w, 1) == Consumed(v, 0);
    } else {
      StepOk(w, Consume);
      NearerToEnd(w, v.c);
      WithinLog(w.p, w.c);
      WithinLog(v.p, v.c);
      n := GetsMisled(v);
      n := n + 1;
    }
  }

  /** A header in the log is taken, and behind the log only a full run ends the scan. */
  ghost predicate ScansOnMisled(p: Producer, c: Consumer, d: Consumer) {
    match c.phase
    case Probe(slots, _, _) => d.phase.Guard? || (c.copied + slots == |p.log| && slots >= |p.cells|)
    case Guard(slots, _, _) => d.phase.Accepted?
    case Accepted(_, _, _, _) => d.phase.Sized?
    case _ => true
  }

  lemma ScanStepsMisled(p: Producer, c: Consumer)
    requires ProducerOk(p) && !Quiet(p) && ConsumerOk(p, c) && !CaughtUp(World(p, c))
    ensures ScansOnMisled(p, c, ConsumerStep(c, p.cells))
  {
    if c.phase.Probe? { HeaderShows(p, c); }
    if c.phase.Guard? { GuardPasses(p, c); }
    if c.phase.Accepted? { AcceptedOk(p, c); }
  }

  ghost predicate NearerMisled(p: Producer, c: Consumer, d: Consumer) {
    var before, after := if c.phase.Idle? then 3 else Stage(p, c), if d.phase.Idle? then 3 else Stage(p, d);
    d.copied > c.copied ||
    (d.copied == c.copied &&
     (after < before ||
      (after == before && (Left(p, d) < Left(p, c) || (Left(p, d) == Left(p, c) && Turn(d) < Turn(c))))))
  }

  lemma NearerToEnd(w: World, d: Consumer)
    requires Ok(w) && !Quiet(w.p) && !CaughtUp(w) && d == ConsumerStep(w.c, w.p.cells)
    ensures NearerMisled(w.p, w.c, d)
  {
    WithinLog(w.p, w.c);
    ScanStepsMisled(w.p, w.c);
    MovesNearerMisled(w.p, w.c, d);
  }

  lemma MovesNearerMisled(p: Producer, c: Consumer, d: Consumer)
    requires |p.cells| > 0 && d == ConsumerStep(c, p.cells) && ScansOnMisled(p, c, d) && !c.phase.Failed?
    requires Left(p, c) >= 0 && (c.phase.Copying? ==> c.phase.slots > 0) && (c.phase.Sized? ==> c.phase.size > 0)
    ensures NearerMisled(p, c, d)
  {
  }

  /** What one step of the server keeps, any number of them keep. */
  lemma {:induction false} KeptThroughout(inv: World -> bool, w: World, n: nat)
    requires |w.p.cells| > 0 && inv(w)
    requires forall v: World {:trigger Step(v, Consume)} :: |v.p.cells| > 0 && inv(v) ==> inv(Step(v, Consume))
    ensures inv(Consumed(w, n))
    decreases n
  {
    if n > 0 { KeptThroughout(inv, Step(w, Consume), n - 1); }
  }

  lemma QuietStep(w: World)
    requires Ok(w) && Quiet(w.p)
    ensures Ok(Step(w, Consume)) && Quiet(Step(w, Consume).p)
  {
    StepOk(w, Consume);
  }

  lemma {:induction false} StaysInOrder(w: World, n: nat)
    requires Ok(w) && Quiet(w.p)
    ensures Ok(Consumed(w, n))
  {
    var inv := (v: World) => |v.p.cells| > 0 && Ok(v) && Quiet(v.p);
    forall v: World {:trigger Step(v, Consume)} | |v.p.cells| > 0 && inv(v)
      ensures inv(Step(v, Consume))
    {
      QuietStep(v);
    }
    KeptThroughout(inv, w, n);
  }

  ghost predicate MisledAfter(w: World, n: nat)
    requires |w.p.cells| > 0
  {
    Phantom(Consumed(w, n))
  }

  /**
   What a recorder can read off its own ring: the server, left alone from here, will take a slot that is no
   finished record if and only if the slot behind the log is not quiet.
   */
  lemma {:induction false} MisledExactlyWhenNotQuiet(w: World)
    requires Ok(w)
    ensures (exists n: nat :: MisledAfter(w, n)) <==> !Quiet(w.p)
  {
    if Quiet(w.p) {
      forall n: nat
        ensures !MisledAfter(w, n)
      {
        StaysInOrder(w, n);
      }
    } else {
      var n := GetsMisled(w);
      assert MisledAfter(w, n);
    }
  }

  /** Idempotence: a second call finds an empty slot, or one no later than the last tick, and is back at once. */
  lemma {:induction false} SecondCallCopiesNothing(p: Producer, c: Consumer)
    requires Ok(World(p, c)) && Quiet(p) && c.phase.Idle? && c.copied == |p.log|
    ensures var d := ConsumerStep(ConsumerStep(c, p.cells), p.cells);
            d == c || (d == c.(phase := Guard(0, c.last, 0)) && ConsumerStep(d, p.cells) == c)
  {
    var probing := ConsumerStep(c, p.cells);
    ConsumerStepOk(p, c);
    ConsumerStepOk(p, probing);
    if ConsumerStep(probing, p.cells).phase.Guard? { GuardPasses(p, ConsumerStep(probing, p.cells)); }
  }

  // ------------------------------------------------------------------ over arbitrary contents

  /** What holds of the server whatever the ring contains and however it changes. */
  ghost predicate ShapeOk(c: Consumer, cap: nat)
    requires cap > 0
  {
    c.next == Wrap(c.copied, cap) &&
    match c.phase
    case Idle => |c.out| == c.copied
    case Probe(slots, _, found) => |c.out| == c.copied && found <= slots <= cap
    case Guard(slots, _, found) => |c.out| == c.copied && found <= slots < cap
    case Accepted(slots, runLast, found, seen) => |c.out| == c.copied && found <= slots < cap && seen > runLast
    case Sized(slots, runLast, found, seen, size) =>
      |c.out| == c.copied && found <= slots && 1 <= size && slots + size <= cap && seen > runLast
    case Copying(slots, _, found, done) => |c.out| == c.copied + done && done <= slots <= cap && found <= slots
    case Failed => true
  }

  lemma ShapeStep(c: Consumer, cells: seq<Slot>)
    requires |cells| > 0 && ShapeOk(c, |cells|)
    ensures ShapeOk(ConsumerStep(c, cells), |cells|)
  {
    if c.phase.Copying? { WrapOfSum(c.copied, c.phase.slots, |cells|); }
  }

  lemma {:induction false} ShapeKept(c: Consumer, cap: nat, memory: nat -> Cells, t0: nat, t1: nat)
    requires RingOf(memory, cap) && ShapeOk(c, cap) && t0 <= t1
    ensures ShapeOk(Steps(c, memory, t0, t1), cap)
    decreases t1 - t0
  {
    if t0 < t1 {
      ShapeKept(c, cap, memory, t0, t1 - 1);
      ShapeStep(Steps(c, memory, t0, t1 - 1), memory(t1 - 1));
    }
  }

  /**
   For any ring contents, changing at every read: the index is the copied count modulo the capacity, and
   every slot the server reads lies inside the two mapped views.
   */
  lemma {:induction false} ArbitraryRing(c: Consumer, cap: nat, memory: nat -> Cells, t0: nat, t1: nat)
    requires RingOf(memory, cap) && ShapeOk(c, cap) && t0 <= t1
    ensures var d := Steps(c, memory, t0, t1);
            && (d.phase.Failed? || |d.out| == d.copied + if d.phase.Copying? then d.phase.done else 0)
            && d.next == Wrap(d.copied, cap)
            && (d.phase.Probe? && d.phase.slots < cap ==> d.next + d.phase.slots < 2 * cap)
            && (d.phase.Guard? || d.phase.Accepted? || d.phase.Sized? ==> d.next + d.phase.slots < 2 * cap)
            && (d.phase.Copying? && d.phase.done < d.phase.slots ==> d.next + d.phase.done < 2 * cap)
  {
    ShapeKept(c, cap, memory, t0, t1);
  }

  /** The server throws exactly for a record that announces more bytes than the other slots of the ring have. */
  lemma ThrowsExactlyFor(c: Consumer, cells: seq<Slot>)
    requires |cells| > 0 && ShapeOk(c, |cells|) && !c.phase.Failed?
    ensures ConsumerStep(c, cells).phase.Failed? <==>
            c.phase.Accepted? && At(cells, c.next + c.phase.slots).reserved_ > 16 * (|cells| - 1)
  {
  }

  // ------------------------------------------------------------------ the tick loaded twice

  /** A slot is about to be taken for a record, and the tick loaded again still exceeds the last one. */
  predicate StillLater(c: Consumer, cells: seq<Slot>)
    requires |cells| > 0
  {
    c.phase.Sized? ==> At(cells, c.next + c.phase.slots).tick_ > c.phase.runLast
  }

  ghost predicate AlwaysLater(c: Consumer, memory: nat -> Cells, t0: nat, t1: nat)
    requires t0 <= t1
    decreases t1 - t0
  {
    t0 == t1 ||
    (AlwaysLater(c, memory, t0, t1 - 1) && StillLater(Steps(c, memory, t0, t1 - 1), memory(t1 - 1)))
  }

  /** The slot about to be taken shows no earlier tick than it showed the guard. */
  predicate HeaderHolds(c: Consumer, cells: seq<Slot>)
    requires |cells| > 0
  {
    c.phase.Sized? ==> At(cells, c.next + c.phase.slots).tick_ >= c.phase.seen
  }

  /** No header's tick falls behind what the guard saw of it before it is loaded again. */
  ghost predicate HeadersHold(c: Consumer, memory: nat -> Cells, t0: nat, t1: nat)
    requires t0 <= t1
    decreases t1 - t0
  {
    t0 == t1 ||
    (HeadersHold(c, memory, t0, t1 - 1) && HeaderHolds(Steps(c, memory, t0, t1 - 1), memory(t1 - 1)))
  }

  /** The tick the server will compare the next header's with. */
  function Frontier(c: Consumer): Tick {
    match c.phase
    case Probe(_, runLast, _) => runLast
    case Guard(_, runLast, _) => runLast
    case Accepted(_, runLast, _, _) => runLast
    case Sized(_, runLast, _, _, _) => runLast
    case Copying(_, runLast, _, _) => runLast
    case _ => c.last
  }

  /** The tick taken by a step, if it takes one. */
  function TakenBy(c: Consumer, cells: seq<Slot>): seq<Tick>
    requires |cells| > 0
  {
    if c.phase.Sized? then [Frontier(ConsumerStep(c, cells))] else []
  }

  /** Ticks of the record headers taken, in the order they were taken. */
  function TakenTicks(c: Consumer, memory: nat -> Cells, t0: nat, t1: nat): seq<Tick>
    requires t0 <= t1
    decreases t1 - t0
  {
    if t0 == t1 then [] else
    TakenTicks(c, memory, t0, t1 - 1) + TakenBy(Steps(c, memory, t0, t1 - 1), memory(t1 - 1))
  }

  /** Strictly growing, from after `last`. */
  ghost predicate Climbs(taken: seq<Tick>, last: Tick) {
    && (forall i, j :: 0 <= i < j < |taken| ==> taken[i] < taken[j])
    && (forall i :: 0 <= i < |taken| ==> last < taken[i])
  }

  function Latest(taken: seq<Tick>, last: Tick): Tick {
    if taken == [] then last else taken[|taken| - 1]
  }

  lemma ClimbsOn(taken: seq<Tick>, last: Tick, tick: Tick)
    ensures Climbs(taken + [tick], last) <==> Climbs(taken, last) && tick > Latest(taken, last)
  {
    var more := taken + [tick];
    assert forall i :: 0 <= i < |taken| ==> more[i] == taken[i];
    assert more[|taken|] == tick;
    if Climbs(more, last) && taken != [] {
      assert more[|taken| - 1] < more[|taken|];
    }
  }

  /** The tick compared next is the last one taken; an empty scan still has the one it started from. */
  predicate FrontierOk(c: Consumer, taken: seq<Tick>, last: Tick) {
    && (Scanning(c.phase) && c.phase.slots == 0 ==> c.phase.runLast == c.last) && (c.phase.Sized? ==> c.phase.size > 0)
    && (!c.phase.Failed? ==> Frontier(c) == Latest(taken, last))
  }

  lemma FrontierOn(c: Consumer, cells: seq<Slot>, taken: seq<Tick>, last: Tick)
    requires |cells| > 0 && FrontierOk(c, taken, last)
    ensures FrontierOk(ConsumerStep(c, cells), taken + TakenBy(c, cells), last)
  {
    if !c.phase.Sized? { assert taken + [] == taken; }
  }

  lemma {:induction false} FrontierIsLatest(c: Consumer, memory: nat -> Cells, t0: nat, t1: nat)
    requires c.phase.Idle? && t0 <= t1
    ensures FrontierOk(Steps(c, memory, t0, t1), TakenTicks(c, memory, t0, t1), c.last)
    decreases t1 - t0
  {
    if t0 < t1 {
      FrontierIsLatest(c, memory, t0, t1 - 1);
      FrontierOn(Steps(c, memory, t0, t1 - 1), memory(t1 - 1), TakenTicks(c, memory, t0, t1 - 1), c.last);
    }
  }

  /** One step takes a record exactly when it is the one that loads the tick again. */
  lemma TakesOn(d: Consumer, cells: seq<Slot>, taken: seq<Tick>, last: Tick)
    requires |cells| > 0 && FrontierOk(d, taken, last)
    ensures Climbs(taken + TakenBy(d, cells), last) <==>
            Climbs(taken, last) && StillLater(d, cells)
  {
    if d.phase.Sized? {
      ClimbsOn(taken, last, Frontier(ConsumerStep(d, cells)));
    } else {
      assert taken + [] == taken;
    }
  }

  /**
   For any ring contents, changing at every read: the ticks of the records taken strictly increase over
   the server's life if and only if no header's tick, loaded again, has fallen to the last one or below.
   */
  lemma {:induction false} TicksClimbExactlyWhen(c: Consumer, memory: nat -> Cells, t0: nat, t1: nat)
    requires c.phase.Idle? && t0 <= t1
    ensures Climbs(TakenTicks(c, memory, t0, t1), c.last) <==> AlwaysLater(c, memory, t0, t1)
    decreases t1 - t0
  {
    if t0 < t1 {
      TicksClimbExactlyWhen(c, memory, t0, t1 - 1);
      FrontierIsLatest(c, memory, t0, t1 - 1);
      TakesOn(Steps(c, memory, t0, t1 - 1), memory(t1 - 1), TakenTicks(c, memory, t0, t1 - 1), c.last);
    }
  }

  /** In particular they do while no header falls behind what the guard saw of it. */
  lemma {:induction false} HeldTicksClimb(c: Consumer, cap: nat, memory: nat -> Cells, t0: nat, t1: nat)
    requires RingOf(memory, cap) && ShapeOk(c, cap) && c.phase.Idle? && t0 <= t1
    requires HeadersHold(c, memory, t0, t1)
    ensures AlwaysLater(c, memory, t0, t1) && Climbs(TakenTicks(c, memory, t0, t1), c.last)
    decreases t1 - t0
  {
    if t0 < t1 {
      HeldTicksClimb(c, cap, memory, t0, t1 - 1);
      ShapeKept(c, cap, memory, t0, t1 - 1);
      HeldIsLater(Steps(c, memory, t0, t1 - 1), memory(t1 - 1));
    }
    TicksClimbExactlyWhen(c, memory, t0, t1);
  }

  lemma HeldIsLater(c: Consumer, cells: seq<Slot>)
    requires |cells| > 0 && ShapeOk(c, |cells|) && HeaderHolds(c, cells)
    ensures StillLater(c, cells)
  {
  }

  /** A recorder that keeps its side never lets a header's tick fall back under the server's eyes. */
  lemma {:induction false} RecorderHoldsHeaders(cap: nat, run: seq<Action>, memory: nat -> Cells)
    requires RingOf(memory, cap) && Legal(Initial(cap), run) && Undisturbed(Initial(cap), run)
    requires forall t :: 0 <= t < |MemoryOf(Initial(cap), run)| ==> memory(t) == MemoryOf(Initial(cap), run)[t]
    ensures AlwaysLater(Initial(cap).c, memory, 0, |MemoryOf(Initial(cap), run)|)
    decreases |run|
  {
    if run != [] {
      var w, before := Initial(cap), run[..|run| - 1];
      var n := |MemoryOf(w, before)|;
      assert forall t :: 0 <= t < n ==> MemoryOf(w, before)[t] == MemoryOf(w, run)[t];
      RecorderHoldsHeaders(cap, before, memory);
      if run[|run| - 1].Consume? {
        assert memory(n) == MemoryOf(w, run)[n];
        ServerSeesTheRun(w, before, memory);
        RunHoldsHeader(cap, before);
        LaterOn(w.c, memory, 0, n);
      }
    }
  }

  lemma RunHoldsHeader(cap: nat, run: seq<Action>)
    requires cap > 0 && Legal(Initial(cap), run) && Undisturbed(Initial(cap), run)
    ensures StillLater(Exec(Initial(cap), run).c, Exec(Initial(cap), run).p.cells)
  {
    InitialOk(cap);
    RunOk(Initial(cap), run);
    OkHoldsHeader(Exec(Initial(cap), run));
  }

  lemma OkHoldsHeader(w: World)
    requires Ok(w)
    ensures StillLater(w.c, w.p.cells)
  {
    if w.c.phase.Sized? { SizedOk(w.p, w.c); }
  }

  lemma {:induction false} LaterOn(c: Consumer, memory: nat -> Cells, t0: nat, t: nat)
    requires t0 <= t && AlwaysLater(c, memory, t0, t) && StillLater(Steps(c, memory, t0, t), memory(t))
    ensures AlwaysLater(c, memory, t0, t + 1)
  {
  }
}
