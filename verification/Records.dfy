/** Framing: a stretch of a slot log that reads as whole records with strictly growing ticks. */
module Records {
  import opened CheckPoint

  /** Walking from `lo` by each header's own slot count lands exactly on `hi`, every tick above the one before. */
  ghost predicate Framed(log: seq<Slot>, lo: nat, hi: nat, last: Tick)
    requires lo <= hi <= |log|
    decreases hi - lo
  {
    lo == hi ||
    (lo + RecordSlots(log[lo]) <= hi && log[lo].tick_ > last &&
     Framed(log, lo + RecordSlots(log[lo]), hi, log[lo].tick_))
  }

  /** Tick of the last record of the stretch, or `last` when there is none. */
  ghost function FinalTick(log: seq<Slot>, lo: nat, hi: nat, last: Tick): (t: Tick)
    requires lo <= hi <= |log| && Framed(log, lo, hi, last)
    ensures t >= last && (lo < hi ==> t >= log[lo].tick_)
    decreases hi - lo
  {
    if lo == hi then last else FinalTick(log, lo + RecordSlots(log[lo]), hi, log[lo].tick_)
  }

  ghost function Count(log: seq<Slot>, lo: nat, hi: nat, last: Tick): nat
    requires lo <= hi <= |log| && Framed(log, lo, hi, last)
    decreases hi - lo
  {
    if lo == hi then 0 else 1 + Count(log, lo + RecordSlots(log[lo]), hi, log[lo].tick_)
  }

  /** The stretch is `count` whole records that take the tick from `last` to `final`. */
  ghost predicate Run(log: seq<Slot>, lo: nat, hi: nat, last: Tick, final: Tick, count: nat) {
    lo <= hi <= |log| && Framed(log, lo, hi, last) &&
    FinalTick(log, lo, hi, last) == final && Count(log, lo, hi, last) == count
  }

  lemma {:induction false} RunsJoin(log: seq<Slot>, a: nat, b: nat, c: nat,
                                    t0: Tick, t1: Tick, t2: Tick, n: nat, m: nat)
    requires Run(log, a, b, t0, t1, n) && Run(log, b, c, t1, t2, m)
    ensures Run(log, a, c, t0, t2, n + m)
    decreases b - a
  {
    if a < b { RunsJoin(log, a + RecordSlots(log[a]), b, c, log[a].tick_, t1, t2, n - 1, m); }
  }

  lemma {:induction false} RunOutlivesGrowth(log: seq<Slot>, more: seq<Slot>, lo: nat, hi: nat,
                                             last: Tick, final: Tick, count: nat)
    requires Run(log, lo, hi, last, final, count)
    ensures Run(log + more, lo, hi, last, final, count)
    decreases hi - lo
  {
    if lo < hi {
      RunOutlivesGrowth(log, more, lo + RecordSlots(log[lo]), hi, log[lo].tick_, final, count - 1);
    }
  }

  lemma OneRecord(log: seq<Slot>, lo: nat, hi: nat, last: Tick)
    requires lo < hi <= |log| && lo + RecordSlots(log[lo]) == hi && log[lo].tick_ > last
    ensures Run(log, lo, hi, last, log[lo].tick_, 1)
  {
  }

  /** Splitting off the first record. */
  lemma RunHead(log: seq<Slot>, lo: nat, hi: nat, last: Tick, final: Tick, count: nat)
    requires Run(log, lo, hi, last, final, count) && lo < hi
    ensures lo + RecordSlots(log[lo]) <= hi && log[lo].tick_ > last && count > 0
    ensures Run(log, lo + RecordSlots(log[lo]), hi, log[lo].tick_, final, count - 1)
  {
  }

  // ------------------------------------------------------------------ lists of records

  /** The walk by header sizes, ticks growing from after `last`, lands on `hi` after `n` records. */
  ghost predicate Whole(log: seq<Slot>, lo: nat, hi: nat, last: Tick, n: nat) {
    lo <= hi <= |log| && Framed(log, lo, hi, last) && Count(log, lo, hi, last) == n
  }

  function Flatten(records: seq<seq<Slot>>): seq<Slot> {
    if records == [] then [] else records[0] + Flatten(records[1..])
  }

  /** What the recorder writes: each header announces its record's length, and ticks grow from after `last`. */
  ghost predicate WellMade(records: seq<seq<Slot>>, last: Tick) {
    records == [] ||
    (records[0] != [] && RecordSlots(records[0][0]) == |records[0]| && records[0][0].tick_ > last &&
     WellMade(records[1..], records[0][0].tick_))
  }

  /** The tick of the last record, or `last` when there is none. */
  function LastTick(records: seq<seq<Slot>>, last: Tick): Tick {
    if records == [] then last else LastTick(records[1..], if records[0] == [] then last else records[0][0].tick_)
  }

  lemma {:induction false} FlattenSnoc(records: seq<seq<Slot>>, record: seq<Slot>)
    ensures Flatten(records + [record]) == Flatten(records) + record
  {
    if records == [] {
      assert records + [record] == [record];
    } else {
      assert (records + [record])[1..] == records[1..] + [record];
      FlattenSnoc(records[1..], record);
    }
  }

  lemma {:induction false} WellMadeSnoc(records: seq<seq<Slot>>, record: seq<Slot>, last: Tick)
    requires WellMade(records, last) && record != [] && RecordSlots(record[0]) == |record|
    requires record[0].tick_ > LastTick(records, last)
    ensures WellMade(records + [record], last) && LastTick(records + [record], last) == record[0].tick_
  {
    if records == [] {
      assert records + [record] == [record];
    } else {
      assert (records + [record])[1..] == records[1..] + [record];
      WellMadeSnoc(records[1..], record, records[0][0].tick_);
    }
  }

  /** The walk over the first record of a list leaves the walk over the others. */
  lemma FirstRecord(before: seq<Slot>, records: seq<seq<Slot>>, last: Tick)
    requires records != [] && WellMade(records, last)
    ensures var log, r := before + Flatten(records), records[0];
            && log == before + r + Flatten(records[1..]) && |before| < |log| && log[|before|] == r[0]
            && |before| + RecordSlots(log[|before|]) == |before + r|
  {
  }

  /** The header walk finds `n` records exactly at the end of the first `n` of the list. */
  lemma {:induction false} WalkIsList(before: seq<Slot>, records: seq<seq<Slot>>, last: Tick, hi: nat, n: nat)
    requires WellMade(records, last) && |before| <= hi <= |before| + |Flatten(records)|
    ensures Whole(before + Flatten(records), |before|, hi, last, n) <==>
            n <= |records| && hi == |before| + |Flatten(records[..n])|
    decreases |records|
  {
    var log, lo := before + Flatten(records), |before|;
    if hi == lo {
      if 0 < n <= |records| {
        FirstRecord(before, records, last);
        assert records[..n][0] == records[0];
      }
    } else {
      FirstRecord(before, records, last);
      var r, rest := records[0], records[1..];
      if 0 < n && |before + r| <= hi {
        WalkIsList(before + r, rest, r[0].tick_, hi, n - 1);
        if n <= |records| {
          assert records[..n][1..] == rest[..n - 1];
        }
      } else if 0 < n <= |records| {
        assert records[..n][0] == r;
      }
    }
  }

  /**
   Framing undoes itself: walking the slots of any list of records by their headers recovers exactly the
   boundaries of the list, and counts the records before each.
   */
  lemma {:induction false} BoundariesRecovered(records: seq<seq<Slot>>, hi: nat, n: nat)
    requires WellMade(records, 0) && hi <= |Flatten(records)|
    ensures Whole(Flatten(records), 0, hi, 0, n) <==>
            n <= |records| && hi == |Flatten(records[..n])|
  {
    assert [] + Flatten(records) == Flatten(records);
    WalkIsList([], records, 0, hi, n);
  }

  lemma {:induction false} FlattenPrefix(records: seq<seq<Slot>>, n: nat)
    requires n <= |records|
    ensures Flatten(records[..n]) <= Flatten(records)
  {
    if n > 0 {
      assert records[..n][1..] == records[1..][..n - 1];
      FlattenPrefix(records[1..], n - 1);
    }
  }

  /** So a walk that has counted `n` records has passed exactly the first `n` of the list. */
  lemma {:induction false} WalkedIsFirstRecords(records: seq<seq<Slot>>, hi: nat, t: Tick, n: nat)
    requires WellMade(records, 0) && Run(Flatten(records), 0, hi, 0, t, n)
    ensures n <= |records| && Flatten(records)[..hi] == Flatten(records[..n])
  {
    BoundariesRecovered(records, hi, n);
    FlattenPrefix(records, n);
  }

  // ------------------------------------------------------------------ taking records back

  /** A run is told by the slots it lies in alone. */
  lemma {:induction false} RunOfPrefix(log: seq<Slot>, k: nat, lo: nat, hi: nat, last: Tick, final: Tick, count: nat)
    requires hi <= k <= |log|
    ensures Run(log[..k], lo, hi, last, final, count) <==> Run(log, lo, hi, last, final, count)
    decreases hi - lo
  {
    if lo < hi && lo + RecordSlots(log[lo]) <= hi && count > 0 {
      RunOfPrefix(log, k, lo + RecordSlots(log[lo]), hi, log[lo].tick_, final, count - 1);
    }
  }

  /** Two runs from one start: the longer goes on where the shorter ends. */
  lemma {:induction false} RunsSplit(log: seq<Slot>, lo: nat, at: nat, hi: nat,
                                     t0: Tick, t1: Tick, t2: Tick, n: nat, m: nat)
    requires Run(log, lo, at, t0, t1, n) && Run(log, lo, hi, t0, t2, m) && at <= hi
    ensures n <= m && Run(log, at, hi, t1, t2, m - n)
    decreases at - lo
  {
    if lo < at { RunsSplit(log, lo + RecordSlots(log[lo]), at, hi, log[lo].tick_, t1, t2, n - 1, m - 1); }
  }

  lemma {:induction false} ListIsRun(before: seq<Slot>, records: seq<seq<Slot>>, last: Tick)
    requires WellMade(records, last)
    ensures Run(before + Flatten(records), |before|, |before| + |Flatten(records)|, last,
                LastTick(records, last), |records|)
    decreases |records|
  {
    if records != [] {
      FirstRecord(before, records, last);
      ListIsRun(before + records[0], records[1..], records[0][0].tick_);
    }
  }

  lemma {:induction false} WellMadePrefix(records: seq<seq<Slot>>, n: nat, last: Tick)
    requires WellMade(records, last) && n <= |records|
    ensures WellMade(records[..n], last)
  {
    if n > 0 {
      WellMadePrefix(records[1..], n - 1, records[0][0].tick_);
      assert records[..n][1..] == records[1..][..n - 1];
    }
  }

  /** Keeping a log up to a boundary keeps the first so many of its records. */
  lemma {:induction false} KeptRecords(records: seq<seq<Slot>>, keep: nat, last: Tick, n: nat)
    requires WellMade(records, 0) && Run(Flatten(records), 0, keep, 0, last, n)
    ensures n <= |records| && Flatten(records)[..keep] == Flatten(records[..n])
    ensures WellMade(records[..n], 0) && LastTick(records[..n], 0) == last
  {
    WalkedIsFirstRecords(records, keep, last, n);
    WellMadePrefix(records, n, 0);
    RunOfPrefix(Flatten(records), keep, 0, keep, 0, last, n);
    LastOfWhole(records[..n], last, n);
  }

  lemma LastOfWhole(records: seq<seq<Slot>>, last: Tick, n: nat)
    requires WellMade(records, 0) && Run(Flatten(records), 0, |Flatten(records)|, 0, last, n)
    ensures LastTick(records, 0) == last
  {
    ListIsRun([], records, 0);
    assert [] + Flatten(records) == Flatten(records);
  }
}
