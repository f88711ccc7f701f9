/** When `copy_available` comes back: the server's whole life over a ring whose contents may change at every read. */
module CallEnds {
  import opened CheckPoint
  import opened Delivery
  import opened Ring
  import opened ServerSteps

  /** `copy_available` has neither returned nor thrown. */
  predicate InCall(c: Consumer) {
    !c.phase.Idle? && !c.phase.Failed?
  }

  /** If a scan ends at this step, its run fills the ring: the one case in which the copy loop goes round again. */
  ghost predicate FullScan(life: nat -> Consumer, cap: nat, t: nat) {
    Scanning(life(t).phase) && !Scanning(life(t + 1).phase) ==>
      life(t + 1).phase.Copying? && life(t + 1).phase.slots == cap
  }

  /** Some scan from now on ends without filling the ring. */
  ghost predicate SomeScanEndsShort(life: nat -> Consumer, cap: nat, now: nat) {
    exists t: nat :: now <= t && !FullScan(life, cap, t)
  }

  lemma {:induction false} LifeStep(life: nat -> Consumer, memory: nat -> Cells, cap: nat, t: nat)
    requires IsLife(life, memory, cap)
    ensures |memory(t)| == cap && life(t + 1) == ConsumerStep(life(t), memory(t)) && ShapeOk(life(t), cap)
  {
    ShapeKept(Initial(cap).c, cap, memory, 0, t);
    LifeIsSteps(life, memory, cap, t);
    assert |memory(t)| == cap;
  }

  // ------------------------------------------------------------------ exactly when the call goes on for ever

  /** Inside a scan, or copying a run that fills the ring. */
  predicate OnFullLap(c: Consumer, cap: nat) {
    Scanning(c.phase) || (c.phase.Copying? && c.phase.slots == cap)
  }

  lemma LapGoesOn(c: Consumer, cells: seq<Slot>)
    requires |cells| > 0 && OnFullLap(c, |cells|) && ShapeOk(c, |cells|)
    ensures OnFullLap(ConsumerStep(c, cells), |cells|) || (Scanning(c.phase) && !Scanning(ConsumerStep(c, cells).phase))
  {
  }

  lemma {:induction false} StaysOnFullLap(life: nat -> Consumer, memory: nat -> Cells, cap: nat, t0: nat, t: nat)
    requires IsLife(life, memory, cap) && t0 <= t && OnFullLap(life(t0), cap)
    requires forall u: nat :: t0 <= u < t ==> FullScan(life, cap, u)
    ensures OnFullLap(life(t), cap)
    decreases t - t0
  {
    if t0 < t {
      var u := t - 1;
      StaysOnFullLap(life, memory, cap, t0, u);
      LifeStep(life, memory, cap, u);
      LapGoesOn(life(u), memory(u));
      assert FullScan(life, cap, u);
    }
  }

  /** Copying a run shorter than the ring ends at rest. */
  lemma {:induction false} ShortCopyRests(life: nat -> Consumer, memory: nat -> Cells, cap: nat, t: nat)
      returns (u: nat)
    requires IsLife(life, memory, cap) && life(t).phase.Copying? && life(t).phase.done <= life(t).phase.slots < cap
    ensures u > t && life(u).phase.Idle?
    decreases life(t).phase.slots - life(t).phase.done
  {
    LifeStep(life, memory, cap, t);
    u := t + 1;
    if life(t).phase.done < life(t).phase.slots {
      u := ShortCopyRests(life, memory, cap, t + 1);
    }
  }

  /** A scan that ends short leaves the call, or copies less than a full ring and then leaves it. */
  lemma {:induction false} ShortScanLeaves(life: nat -> Consumer, memory: nat -> Cells, cap: nat, t: nat)
      returns (u: nat)
    requires IsLife(life, memory, cap) && !FullScan(life, cap, t)
    ensures u > t && !InCall(life(u))
  {
    LifeStep(life, memory, cap, t);
    LifeStep(life, memory, cap, t + 1);
    u := t + 1;
    if life(u).phase.Copying? {
      u := ShortCopyRests(life, memory, cap, u);
    }
  }

  /**
   The exact condition, for any contents changing at every read: a call that has begun to scan never comes
   back if and only if every scan from there on ends with a run that fills the ring.
   */
  lemma {:induction false} NeverReturnsExactlyWhen(life: nat -> Consumer, memory: nat -> Cells, cap: nat, t0: nat)
    requires IsLife(life, memory, cap) && Scanning(life(t0).phase)
    ensures (forall t: nat :: t0 <= t ==> InCall(life(t))) <==> !SomeScanEndsShort(life, cap, t0)
  {
    if SomeScanEndsShort(life, cap, t0) {
      var t: nat :| t0 <= t && !FullScan(life, cap, t);
      var u := ShortScanLeaves(life, memory, cap, t);
      assert !InCall(life(u));
    } else {
      forall t: nat | t0 <= t
        ensures InCall(life(t))
      {
        StaysOnFullLap(life, memory, cap, t0, t);
      }
    }
  }

  // ------------------------------------------------------------------ ticks that keep growing end it

  /** From now on no header's tick falls to the last one or below while the server is about to remember it. */
  ghost predicate LaterForever(life: nat -> Consumer, memory: nat -> Cells, now: nat) {
    forall t: nat {:trigger memory(t)} :: now <= t ==> StillLater(life(t), memory(t))
  }

  /** Behind `s`, the tick has grown if anything was copied, and will if anything was scanned. */
  ghost predicate Raised(s: Consumer, d: Consumer) {
    && d.copied >= s.copied && d.last >= s.last && (d.copied > s.copied ==> d.last > s.last)
    && (Scanning(d.phase) ==> if d.phase.slots == 0 then d.phase.runLast == d.last else d.phase.runLast > d.last)
    && (d.phase.Sized? ==> d.phase.size > 0)
    && (d.phase.Copying? ==> d.phase.runLast > d.last)
  }

  lemma RaisedStep(s: Consumer, d: Consumer, cells: seq<Slot>)
    requires |cells| > 0 && Raised(s, d) && StillLater(d, cells)
    ensures Raised(s, ConsumerStep(d, cells))
  {
  }

  /** While headers stay later, every copied run raises the last tick. */
  lemma {:induction false} CopyingRaisesTick(life: nat -> Consumer, memory: nat -> Cells, cap: nat, t0: nat, t1: nat)
    requires IsLife(life, memory, cap) && t0 <= t1 && LaterForever(life, memory, t0) && Raised(life(t0), life(t0))
    ensures Raised(life(t0), life(t1))
    decreases t1 - t0
  {
    if t0 < t1 {
      CopyingRaisesTick(life, memory, cap, t0, t1 - 1);
      var t := t1 - 1;
      assert StillLater(life(t), memory(t)) && life(t + 1) == ConsumerStep(life(t), memory(t));
      RaisedStep(life(t0), life(t), memory(t));
    }
  }

  lemma ScanTurns(c: Consumer, cells: seq<Slot>)
    requires |cells| > 0 && Scanning(c.phase) && ShapeOk(c, |cells|) && Scanning(ConsumerStep(c, cells).phase)
    ensures var d := ConsumerStep(c, cells);
            d.phase.slots > c.phase.slots || (d.phase.slots == c.phase.slots && Turn(d) < Turn(c))
  {
  }

  /** Every scan ends: each turn of it is four steps and moves on by at least a slot. */
  lemma {:induction false} ScanIsOver(life: nat -> Consumer, memory: nat -> Cells, cap: nat, t: nat) returns (u: nat)
    requires IsLife(life, memory, cap) && Scanning(life(t).phase) && life(t).phase.slots <= cap
    ensures u >= t && Scanning(life(u).phase) && !Scanning(life(u + 1).phase)
    decreases cap - life(t).phase.slots, Turn(life(t))
  {
    u := t;
    LifeStep(life, memory, cap, t);
    if Scanning(life(t + 1).phase) {
      ScanTurns(life(t), memory(t));
      LifeStep(life, memory, cap, t + 1);
      u := ScanIsOver(life, memory, cap, t + 1);
    }
  }

  /** Copying a run that fills the ring ends with a fresh scan behind it. */
  lemma {:induction false} FullCopyGoesRound(life: nat -> Consumer, memory: nat -> Cells, cap: nat, t: nat)
      returns (u: nat)
    requires IsLife(life, memory, cap) && life(t).phase.Copying? && life(t).phase.done <= life(t).phase.slots == cap
    ensures u > t && life(u).phase == Probe(0, life(u).last, 0) && life(u).copied == life(t).copied + cap
    decreases cap - life(t).phase.done
  {
    LifeStep(life, memory, cap, t);
    u := t + 1;
    if life(t).phase.done < cap {
      u := FullCopyGoesRound(life, memory, cap, t + 1);
    }
  }

  /** Ticks have an end, so a call whose headers stay later does come back. */
  lemma {:induction false} ScanEndsShort(life: nat -> Consumer, memory: nat -> Cells, cap: nat, now: nat)
    requires IsLife(life, memory, cap) && LaterForever(life, memory, now)
    requires life(now).phase == Probe(0, life(now).last, 0)
    ensures SomeScanEndsShort(life, cap, now)
    decreases 0x1_0000_0000_0000_0000 - life(now).last
  {
    LifeStep(life, memory, cap, now);
    var t := ScanIsOver(life, memory, cap, now);
    if FullScan(life, cap, t) {
      LifeStep(life, memory, cap, t + 1);
      var u := FullCopyGoesRound(life, memory, cap, t + 1);
      CopyingRaisesTick(life, memory, cap, now, t + 1);
      CopyingRaisesTick(life, memory, cap, now, u);
      ScanEndsShort(life, memory, cap, u);
    }
  }

  lemma {:induction false} LaterCallsEnd(life: nat -> Consumer, memory: nat -> Cells, cap: nat, now: nat)
    requires IsLife(life, memory, cap) && LaterForever(life, memory, now) && life(now).phase.Idle?
    ensures SomeScanEndsShort(life, cap, now)
  {
    LifeStep(life, memory, cap, now);
    ScanEndsShort(life, memory, cap, now + 1);
  }

  // ------------------------------------------------------------------ contents that let it

  /** The contents do not change between two steps of one scan. */
  ghost predicate SameDuringScan(life: nat -> Consumer, memory: nat -> Cells, t: nat) {
    Scanning(life(t).phase) && Scanning(life(t + 1).phase) ==> memory(t + 1) == memory(t)
  }

  /** The header behind the guard still shows the tick the guard saw. */
  predicate StillShows(c: Consumer, cells: seq<Slot>)
    requires |cells| > 0
  {
    c.phase.Accepted? || c.phase.Sized? ==>
      At(cells, c.next + c.phase.slots).tick_ == c.phase.seen > c.phase.runLast
  }

  lemma ShowsOn(c: Consumer, cells: seq<Slot>)
    requires |cells| > 0 && StillShows(c, cells)
    ensures StillShows(ConsumerStep(c, cells), cells)
  {
  }

  lemma {:induction false} ShowsThroughout(life: nat -> Consumer, memory: nat -> Cells, cap: nat, t: nat)
    requires IsLife(life, memory, cap) && forall u: nat :: SameDuringScan(life, memory, u)
    ensures StillShows(life(t), memory(t))
  {
    if t > 0 {
      var u := t - 1;
      ShowsThroughout(life, memory, cap, u);
      LifeStep(life, memory, cap, u);
      ShowsOn(life(u), memory(u));
      assert SameDuringScan(life, memory, u);
    }
  }

  /** Over contents that only change between scans, headers stay later for ever. */
  lemma {:induction false} UnchangedScansStayLater(life: nat -> Consumer, memory: nat -> Cells, cap: nat)
    requires IsLife(life, memory, cap) && forall t: nat :: SameDuringScan(life, memory, t)
    ensures LaterForever(life, memory, 0)
  {
    forall t: nat
      ensures StillLater(life(t), memory(t))
    {
      ShowsThroughout(life, memory, cap, t);
    }
  }

  /** The first `n` looks at the ring are those of this run of a recorder that keeps its side. */
  ghost predicate Shows(run: seq<Action>, memory: nat -> Cells, cap: nat, n: nat)
    requires cap > 0
  {
    && Legal(Initial(cap), run) && Undisturbed(Initial(cap), run) && |MemoryOf(Initial(cap), run)| == n
    && forall t :: 0 <= t < n ==> memory(t) == MemoryOf(Initial(cap), run)[t]
  }

  /** And under a recorder that keeps its side, however long it goes on writing. */
  lemma {:induction false} RecordersStayLater(life: nat -> Consumer, memory: nat -> Cells, cap: nat,
                                              runs: nat -> seq<Action>)
    requires IsLife(life, memory, cap) && forall n: nat :: Shows(runs(n), memory, cap, n)
    ensures LaterForever(life, memory, 0)
  {
    forall t: nat
      ensures StillLater(life(t), memory(t))
    {
      var run := runs(t + 1);
      assert Shows(run, memory, cap, t + 1);
      RecorderHoldsHeaders(cap, run, memory);
      LifeIsSteps(life, memory, cap, t);
    }
  }
}
