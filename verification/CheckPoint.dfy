/** The 16-byte record slot shared by the recorder, the server and the printer. */
module CheckPoint {

  type byte = n: nat | n < 0x100
  type u16 = n: nat | n < 0x1_0000
  type u32 = n: nat | n < 0x1_0000_0000
  type Tick = n: nat | n < 0x1_0000_0000_0000_0000

  const SLOT_BYTES: nat := 16

  /** Any 16 bytes are one slot: an event's extension slots are read through the same fields. */
  datatype Slot = Slot(type_: byte, category_: byte, reserved_: u16, where_: u32, tick_: Tick)

  const ZERO_SLOT := Slot(0, 0, 0, 0, 0)

  predicate IsEmpty(s: Slot) {
    s.tick_ == 0 && s.where_ == 0 && s.reserved_ == 0 && s.type_ == 0 && s.category_ == 0
  }

  /** Slots of the record a header announces: the header and its extension, rounded up. */
  function RecordSlots(header: Slot): (n: nat)
    ensures 1 <= n <= 4097
  {
    1 + (header.reserved_ + SLOT_BYTES - 1) / SLOT_BYTES
  }
}
