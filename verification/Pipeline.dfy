/** From the recorder's `add` to what `checkpoint_print` keeps. */
module Pipeline {
  import opened CheckPoint
  import opened CheckPointPrint
  import opened CheckPointSource
  import opened Delivery
  import opened Layout
  import opened ServerSteps

  lemma {:induction false} AddedSlotsCarryTicks(w: World, run: seq<Action>)
    requires |w.p.cells| > 0 && Legal(w, run) && OnlyAdds(run) && forall s :: s in w.p.log ==> s.tick_ > 0
    ensures forall s :: s in Exec(w, run).p.log ==> s.tick_ > 0
    decreases |run|
  {
    if run != [] {
      AddedSlotsCarryTicks(w, run[..|run| - 1]);
      assert run[|run| - 1] in run;
    }
  }

  /**
   Whole-pipeline read-back for single-slot records: any interleaving of `add` with the server's code, then
   its flush; the file splits into slots without remainder, and what is left after dropping empty slots is
   exactly what was copied, an initial segment of what was recorded.
   */
  lemma {:induction false} PrintedIsRecorded(source: CheckPointSource, run: seq<Action>)
    requires source.Between() && source.Flushed()
    requires Legal(Initial(source.capacity), run) && OnlyAdds(run)
    requires |MemoryOf(Initial(source.capacity), run)| == source.clock
    requires forall t :: 0 <= t < source.clock ==> source.memory(t) == MemoryOf(Initial(source.capacity), run)[t]
    ensures var printed := ReadCheckpoints(source.writer.file);
            && printed.Read? && NonEmpty(printed.slots) == source.out
            && source.out <= Exec(Initial(source.capacity), run).p.log
  {
    var w := Initial(source.capacity);
    InitialOk(source.capacity);
    AddsAreModest(w, run);
    ModestProbesAreQuiet(w, run);
    source.DeliversTheRun(run);
    AddedSlotsCarryTicks(w, run);
    var n: nat :| n < source.writer.blockBytes && source.writer.file == Bytes(source.out) + Zeros(n);
    FileReadsBack(source.out, n, source.writer.file);
    NothingDropped(source.out);
  }
}
