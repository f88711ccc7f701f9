/** The recorder as the object it is: a position, a count and a category mask over a mirrored ring. */
module Recorder {
  import opened Bits
  import opened CheckPoint
  import opened Ring
  import M = RecorderModel

  class Recorder {
    /** The physical cells; the second mapping shows them again behind the first. */
    const cells: array<Slot>
    var start: nat
    var count: u16
    var categories: bv16
    var minCount: u16
    /** Every store into the ring since `init`, in program order. */
    ghost var history: seq<M.Write>

    ghost predicate Valid()
      reads this
    {
      0 < cells.Length && start < cells.Length
    }

    ghost function View(): M.Rec
      reads this, cells
    {
      M.Rec(cells[..], start, count, categories, minCount)
    }

    /** `init` on a mirrored ring; the minimum count is cut to its 16-bit field. */
    constructor (cells: array<Slot>, minCount: nat)
      requires cells.Length > 0
      modifies cells
      ensures Valid() && this.cells == cells && history == [] && View() == M.Zeroed(cells.Length, minCount % 0x1_0000)
    {
      this.cells, start, count, categories, this.minCount := cells, 0, 0, 0, minCount % 0x1_0000;
      history := [];
      new;
      forall i | 0 <= i < cells.Length {
        cells[i] := ZERO_SLOT;
      }
      assert cells[..] == M.Zeroed(cells.Length, 0).cells;
    }

    /** A store through the mapped pointer `start_ + count_ + k`. */
    method Store(k: nat, slot: Slot)
      requires Valid() && start + count + k < 2 * cells.Length
      modifies cells, `history
      ensures cells[..] == Put(old(cells[..]), start + count + k, slot)
      ensures history == old(history) + [M.Write(start + count + k, slot)]
    {
      history := history + [M.Write(start + count + k, slot)];
      var index := start + count + k;
      if index < cells.Length {
        cells[index] := slot;
      } else {
        assert Wrap(index - cells.Length, cells.Length) == index - cells.Length;
        cells[index - cells.Length] := slot;
      }
    }

    /** `add`: one 128-bit store, then the counters. */
    method Add(tick: Tick, literal: u32, type_: byte, category: M.Category)
      requires Valid() && count < cells.Length
      modifies this, cells
      ensures Valid() && View() == M.Add(old(View()), Slot(type_, M.Code(category), 0, literal, tick), category)
      ensures history ==
              old(history) + [M.Write(old(start + count), Slot(type_, M.Code(category), 0, literal, tick))]
    {
      M.PackedSlotUnpacks(type_, category, literal, tick);
      AddSlot(M.PackedSlot(type_, category, literal, tick), category);
    }

    method AddSlot(slot: Slot, category: M.Category)
      requires Valid() && count < cells.Length
      modifies this, cells
      ensures Valid() && View() == M.Add(old(View()), slot, category)
      ensures history == old(history) + [M.Write(old(start + count), slot)]
    {
      Store(0, slot);
      Count(1, category);
    }

    /** An event's own bytes, in the slots behind its header. */
    method StoreBody(slots: seq<Slot>)
      requires Valid() && slots != [] && count + |slots| <= cells.Length
      modifies cells, `history
      ensures cells[..] == M.PutBody(old(cells[..]), start + count, slots, |slots|)
      ensures history == old(history) + M.BodyWrites(start + count, slots, |slots|)
    {
      var k := 1;
      while k < |slots|
        invariant 1 <= k <= |slots| && cells[..] == M.PutBody(old(cells[..]), start + count, slots, k)
        invariant history == old(history) + M.BodyWrites(start + count, slots, k)
      {
        Store(k, slots[k]);
        k := k + 1;
      }
    }

    /** The header's other words over the old tick, and then the tick. */
    method StoreHeader(header: Slot)
      requires Valid() && count < cells.Length
      modifies cells, `history
      ensures cells[..] == Put(old(cells[..]), start + count, header)
      ensures var stale := At(old(cells[..]), start + count).tick_;
              history == old(history) + [M.Write(start + count, header.(tick_ := stale))]
                         + [M.Write(start + count, header)]
    {
      var index := if start + count < cells.Length then start + count else start + count - cells.Length;
      assert Wrap(start + count, cells.Length) == index by {
        assert Wrap(index, cells.Length) == index;
      }
      var stale := cells[index].tick_;
      Store(0, header.(tick_ := stale));
      Store(0, header);
    }

    /** The constructors of an event: its own bytes before its header, the tick last. */
    method Construct(slots: seq<Slot>)
      requires Valid() && slots != [] && count + |slots| <= cells.Length
      modifies cells, `history
      ensures cells[..] == M.PutEvent(old(cells[..]), start + count, slots)
      ensures history == old(history) + M.EventWrites(start + count, slots, At(old(cells[..]), start + count).tick_)
    {
      M.BodyKeepsHeader(cells[..], start + count, slots);
      StoreBody(slots);
      StoreHeader(slots[0]);
    }

    /**
     `addEvent`: the constructors, then the counters. The stores it has made, in their order, are these;
     `RecorderModel.EventShows` says what the ring shows after each of them.
     */
    method AddEvent(slots: seq<Slot>)
      requires Valid() && slots != [] && count + |slots| <= cells.Length
      modifies this, cells
      ensures Valid() && View() == M.AddEvent(old(View()), slots)
      ensures var at := old(start + count);
              history == old(history) + M.EventWrites(at, slots, At(old(cells[..]), at).tick_)
    {
      Construct(slots);
      Count(|slots|, M.Event);
    }

    /** The 16-bit count and the category mask. */
    method Count(n: nat, category: M.Category)
      requires Valid()
      modifies `count, `categories
      ensures count == (old(count) + n % 0x1_0000) % 0x1_0000
      ensures categories == old(categories) | M.CategoryBit(category)
    {
      count := (count + n % 0x1_0000) % 0x1_0000;
      categories := categories | M.CategoryBit(category);
    }

    method Has(category: M.Category) returns (r: bool)
      ensures r == M.Has(View(), category)
    {
      r := categories & M.CategoryBit(category) != 0;
    }

    method Rollback()
      modifies this
      ensures View() == M.Rollback(old(View())) && (old(Valid()) ==> Valid())
      ensures history == old(history)
    {
      count, categories := 0, 0;
    }

    method Commit()
      requires Valid() && count <= cells.Length
      modifies this
      ensures Valid() && View() == M.Commit(old(View()))
      ensures history == old(history)
    {
      start := start + if count >= minCount then count else 0;
      count, categories := 0, 0;
      if start >= cells.Length {
        start := start - cells.Length;
      }
    }

    method CommitIfHas(category: M.Category)
      requires Valid() && count <= cells.Length
      modifies this
      ensures Valid() && View() == M.CommitIfHas(old(View()), category)
      ensures history == old(history)
    {
      var has := Has(category);
      if has { Commit(); } else { Rollback(); }
    }

    method Start(tick: Tick, literal: u32, category: M.Category)
      requires Valid() && count <= cells.Length
      modifies this, cells
      ensures Valid()
      ensures View() == M.RecStep(old(View()), M.OpStart(Slot(0, M.Code(category), 0, literal, tick), category))
      ensures exists at :: history == old(history) + [M.Write(at, Slot(0, M.Code(category), 0, literal, tick))]
    {
      Commit();
      Add(tick, literal, 0, category);
    }

    method End(tick: Tick, literal: u32, category: M.Category)
      requires Valid() && count < cells.Length
      modifies this, cells
      ensures Valid()
      ensures View() == M.RecStep(old(View()), M.OpEnd(Slot(7, M.Code(category), 0, literal, tick), category))
      ensures history == old(history) + [M.Write(old(start + count), Slot(7, M.Code(category), 0, literal, tick))]
    {
      Add(tick, literal, 7, category);
      Commit();
    }
  }
}
