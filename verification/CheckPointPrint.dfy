/** Reading a checkpoint file back and choosing what to print. */
module CheckPointPrint {
  import opened CheckPoint
  import opened Layout

  datatype ReadResult = Read(slots: seq<Slot>) | SizeNotMultiple

  function SlotsOf(bs: seq<byte>): (slots: seq<Slot>)
    requires |bs| % SLOT_BYTES == 0
    ensures |slots| * SLOT_BYTES == |bs|
    decreases |bs|
  {
    if bs == [] then [] else [SlotOf(bs[..SLOT_BYTES])] + SlotsOf(bs[SLOT_BYTES..])
  }

  function ReadCheckpoints(file: seq<byte>): ReadResult {
    if |file| % SLOT_BYTES != 0 then SizeNotMultiple else Read(SlotsOf(file))
  }

  function NonEmpty(slots: seq<Slot>): (kept: seq<Slot>)
    ensures forall s :: s in kept <==> s in slots && !IsEmpty(s)
  {
    if slots == [] then [] else
    var last := slots[|slots| - 1];
    assert slots == slots[..|slots| - 1] + [last];
    NonEmpty(slots[..|slots| - 1]) + if IsEmpty(last) then [] else [last]
  }

  /** The slots the print loop would show without a limit, with their indices. */
  function Shown(slots: seq<Slot>, includeEmpty: bool): seq<(nat, Slot)>
    decreases |slots|
  {
    if slots == [] then [] else
    var i := |slots| - 1;
    Shown(slots[..i], includeEmpty) + if !includeEmpty && IsEmpty(slots[i]) then [] else [(i, slots[i])]
  }

  lemma {:induction false} ShownGrows(slots: seq<Slot>, i: nat, includeEmpty: bool)
    requires i <= |slots|
    ensures Shown(slots[..i], includeEmpty) <= Shown(slots, includeEmpty)
    decreases |slots|
  {
    if i < |slots| {
      assert slots[..|slots| - 1][..i] == slots[..i];
      ShownGrows(slots[..|slots| - 1], i, includeEmpty);
    } else {
      assert slots[..i] == slots;
    }
  }

  /** The filter loop: a limit of 0 means all, otherwise printing stops at the first slot past the limit. */
  method PrintCheckpoints(slots: seq<Slot>, limit: nat, includeEmpty: bool) returns (printed: seq<(nat, Slot)>)
    ensures printed <= Shown(slots, includeEmpty)
    ensures var all := |Shown(slots, includeEmpty)|; |printed| == if limit != 0 && limit < all then limit else all
  {
    printed := [];
    var index := 0;
    while index < |slots|
      invariant index <= |slots| && printed == Shown(slots[..index], includeEmpty)
      invariant limit != 0 ==> |printed| <= limit
    {
      assert slots[..index + 1][..index] == slots[..index];
      ShownGrows(slots, index + 1, includeEmpty);
      if !includeEmpty && IsEmpty(slots[index]) {
        index := index + 1;
        continue;
      }
      if limit != 0 && |printed| >= limit {
        ShownGrows(slots, index, includeEmpty);
        break;
      }
      printed := printed + [(index, slots[index])];
      index := index + 1;
    }
    assert slots[..|slots|] == slots;
  }

  /** Printing without `--all` shows exactly the non-empty slots, each at its own index, in file order. */
  lemma {:induction false} ShownIsNonEmpty(slots: seq<Slot>)
    ensures |Shown(slots, false)| == |NonEmpty(slots)|
    ensures forall k :: 0 <= k < |NonEmpty(slots)| ==>
      var (i, s) := Shown(slots, false)[k]; s == NonEmpty(slots)[k] && i < |slots| && slots[i] == s
    decreases |slots|
  {
    if slots != [] {
      var before := slots[..|slots| - 1];
      ShownIsNonEmpty(before);
      forall k | 0 <= k < |NonEmpty(slots)|
        ensures var (i, s) := Shown(slots, false)[k]; s == NonEmpty(slots)[k] && i < |slots| && slots[i] == s
      {
        if k < |NonEmpty(before)| { assert Shown(slots, false)[k] == Shown(before, false)[k]; }
      }
    }
  }

  // ------------------------------------------------------------------ reading back a written file

  lemma {:induction false} SlotsOfBytes(slots: seq<Slot>, rest: seq<byte>)
    requires |rest| % SLOT_BYTES == 0
    ensures SlotsOf(Bytes(slots) + rest) == slots + SlotsOf(rest)
  {
    if slots == [] {
      assert Bytes(slots) + rest == rest;
    } else {
      var tail := Bytes(slots[1..]) + rest;
      SlotsOfBytes(slots[1..], rest);
      SlotsOfCons(slots[0], tail);
      FirstSlotBytes(slots, rest);
      JoinFirst(slots, SlotsOf(tail), SlotsOf(rest));
    }
  }

  lemma JoinFirst(slots: seq<Slot>, after: seq<Slot>, more: seq<Slot>)
    requires slots != [] && after == slots[1..] + more
    ensures [slots[0]] + after == slots + more
  {
  }

  lemma FirstSlotBytes(slots: seq<Slot>, rest: seq<byte>)
    requires slots != []
    ensures Bytes(slots) + rest == SlotBytes(slots[0]) + (Bytes(slots[1..]) + rest)
  {
  }

  lemma {:induction false} SlotsOfCons(s: Slot, rest: seq<byte>)
    requires |rest| % SLOT_BYTES == 0
    ensures SlotsOf(SlotBytes(s) + rest) == [s] + SlotsOf(rest)
  {
    SlotReadsBack(s);
    assert (SlotBytes(s) + rest)[..SLOT_BYTES] == SlotBytes(s) && (SlotBytes(s) + rest)[SLOT_BYTES..] == rest;
  }

  lemma {:induction false} ZeroValue(n: nat)
    ensures FromLittleEndian(Zeros(n)) == 0
  {
    if n > 0 {
      assert Zeros(n)[1..] == Zeros(n - 1);
      ZeroValue(n - 1);
    }
  }

  lemma ZeroSlot()
    ensures SlotOf(Zeros(SLOT_BYTES)) == ZERO_SLOT
  {
    ZeroValue(2);
    ZeroValue(4);
    ZeroValue(8);
    var bs := Zeros(SLOT_BYTES);
    assert bs[2..4] == Zeros(2) && bs[4..8] == Zeros(4) && bs[8..16] == Zeros(8);
  }

  lemma {:induction false} ZeroSlots(n: nat)
    requires n % SLOT_BYTES == 0
    ensures forall s :: s in SlotsOf(Zeros(n)) ==> IsEmpty(s)
  {
    if n > 0 {
      ZeroSlot();
      ZeroSlots(n - SLOT_BYTES);
      assert Zeros(n)[..SLOT_BYTES] == Zeros(SLOT_BYTES) && Zeros(n)[SLOT_BYTES..] == Zeros(n - SLOT_BYTES);
    }
  }

  lemma {:induction false} NonEmptyOfPadded(slots: seq<Slot>, padding: seq<Slot>)
    requires forall s :: s in padding ==> IsEmpty(s)
    ensures NonEmpty(slots + padding) == NonEmpty(slots)
    decreases |padding|
  {
    if padding == [] {
      assert slots + padding == slots;
    } else {
      var fewer := padding[..|padding| - 1];
      assert (slots + padding)[..|slots + padding| - 1] == slots + fewer;
      assert padding[|padding| - 1] in padding;
      NonEmptyOfPadded(slots, fewer);
    }
  }

  lemma {:induction false} NothingDropped(slots: seq<Slot>)
    requires forall s :: s in slots ==> !IsEmpty(s)
    ensures NonEmpty(slots) == slots
    decreases |slots|
  {
    if slots != [] {
      var i := |slots| - 1;
      assert slots == slots[..i] + [slots[i]] && slots[i] in slots;
      NothingDropped(slots[..i]);
    }
  }

  /** A file of slots and zero padding reads back as the slots, empties aside. */
  lemma FileReadsBack(slots: seq<Slot>, padding: nat, file: seq<byte>)
    requires file == Bytes(slots) + Zeros(padding) && |file| % SLOT_BYTES == 0
    ensures ReadCheckpoints(file).Read? && NonEmpty(ReadCheckpoints(file).slots) == NonEmpty(slots)
  {
    SlotsOfBytes(slots, Zeros(padding));
    ZeroSlots(padding);
    NonEmptyOfPadded(slots, SlotsOf(Zeros(padding)));
  }

  /** With `--all` every slot is shown, at its own index, in file order. */
  lemma {:induction false} ShownIsAll(slots: seq<Slot>)
    ensures |Shown(slots, true)| == |slots|
    ensures forall k :: 0 <= k < |slots| ==> Shown(slots, true)[k] == (k, slots[k])
    decreases |slots|
  {
    if slots != [] {
      var before := slots[..|slots| - 1];
      ShownIsAll(before);
      forall k | 0 <= k < |slots|
        ensures Shown(slots, true)[k] == (k, slots[k])
      {
        if k < |before| { assert Shown(slots, true)[k] == Shown(before, true)[k]; }
      }
    }
  }

  /** A file that is no whole number of slots is refused, and only such a file. */
  lemma {:induction false} OddFilesAreRefused(file: seq<byte>)
    ensures ReadCheckpoints(file).SizeNotMultiple? <==> |file| % 16 != 0
  {
  }

  /** The slots dropped and padded with are those of sixteen zero bytes. */
  lemma {:induction false} EmptyIsAllZero(s: Slot)
    ensures IsEmpty(s) <==> s == Slot(0, 0, 0, 0, 0)
    ensures IsEmpty(s) <==> SlotBytes(s) == Zeros(16)
  {
    if SlotBytes(s) == Zeros(16) {
      SlotReadsBack(s);
      ZeroSlot();
    }
    if IsEmpty(s) { ZeroSlotBytes(); }
  }

  lemma {:induction false} ZeroSlotBytes()
    ensures SlotBytes(Slot(0, 0, 0, 0, 0)) == Zeros(16)
  {
    ZeroDigits(2);
    ZeroDigits(4);
    ZeroDigits(8);
  }

  lemma {:induction false} ZeroDigits(n: nat)
    ensures LittleEndian(0, n) == Zeros(n)
  {
    if n > 0 { ZeroDigits(n - 1); }
  }
}
