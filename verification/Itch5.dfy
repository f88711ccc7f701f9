/** Nasdaq ITCH 5.0 messages: building them byte by byte and reading them through packed structs. */
module Itch5 {
  import opened BigEndian
  import opened CheckPoint
  import opened Layout

  const HEADER_SIZE: nat := 11
  const SYMBOL_SIZE: nat := 8
  const SPACE: byte := 0x20
  const TWO_48: nat := 0x1_0000_0000_0000

  type u64 = Tick

  /** The messages the builders make; `timestamp` and `symbol` as given, before truncation and padding. */
  datatype Message =
    | SystemEvent(locate: u16, tracking: u16, timestamp: u64, code: byte)
    | AddOrder(locate: u16, tracking: u16, timestamp: u64, orderRef: u64, side: byte, shares: u32, symbol: seq<byte>,
               price: u32)
    | OrderExecuted(locate: u16, tracking: u16, timestamp: u64, orderRef: u64, shares: u32, matched: u64)
    | OrderDelete(locate: u16, tracking: u16, timestamp: u64, orderRef: u64)
    | Trade(locate: u16, tracking: u16, timestamp: u64, orderRef: u64, side: byte, shares: u32, symbol: seq<byte>,
            price: u32, matched: u64)

  /** The kinds `make_itch_message` chooses among. */
  predicate Generated(m: Message) {
    !m.Trade?
  }

  function MessageSize(kind: byte): (n: nat)
    ensures HEADER_SIZE <= n <= 50
  {
    match kind as char
    case 'S' => 12 case 'R' => 39 case 'H' => 25 case 'Y' => 20 case 'L' => 26 case 'V' => 35
    case 'W' => 12 case 'K' => 28 case 'J' => 35 case 'h' => 21 case 'A' => 36 case 'F' => 40
    case 'E' => 31 case 'C' => 36 case 'X' => 23 case 'D' => 19 case 'U' => 35 case 'P' => 44
    case 'Q' => 40 case 'B' => 19 case 'I' => 50 case 'N' => 20 case 'O' => 48
    case _ => HEADER_SIZE
  }

  /** Bytes the packed struct of a type adds to the common header, field by field. */
  function StructFields(kind: byte): nat {
    match kind as char
    case 'S' => 1
    case 'R' => 8 + 1 + 1 + 4 + 1 + 1 + 2 + 1 + 1 + 1 + 1 + 1 + 4 + 1
    case 'H' => 8 + 1 + 1 + 4
    case 'Y' => 8 + 1
    case 'L' => 4 + 8 + 1 + 1 + 1
    case 'V' => 8 + 8 + 8
    case 'W' => 1
    case 'K' => 8 + 4 + 1 + 4
    case 'J' => 8 + 4 + 4 + 4 + 4
    case 'h' => 8 + 1 + 1
    case 'A' => 8 + 1 + 4 + 8 + 4
    case 'F' => 8 + 1 + 4 + 8 + 4 + 4
    case 'E' => 8 + 4 + 8
    case 'C' => 8 + 4 + 8 + 1 + 4
    case 'X' => 8 + 4
    case 'D' => 8
    case 'U' => 8 + 8 + 4 + 4
    case 'P' => 8 + 1 + 4 + 8 + 4 + 8
    case 'Q' => 8 + 8 + 4 + 8 + 1
    case 'B' => 8
    case 'I' => 8 + 8 + 1 + 8 + 4 + 4 + 4 + 1 + 1
    case 'N' => 8 + 1
    case 'O' => 8 + 1 + 4 + 4 + 4 + 8 + 4 + 4
    case _ => 0
  }

  /** The size table agrees with the packed structs the messages are read through. */
  lemma SizesArePacked(kind: byte)
    ensures MessageSize(kind) == HEADER_SIZE + StructFields(kind)
  {
  }

  datatype ParseResult = Parsed(extraBytes: nat) | TruncatedMessage

  function ParseMessage(bs: seq<byte>): ParseResult {
    if |bs| < HEADER_SIZE then TruncatedMessage
    else if |bs| < MessageSize(bs[0]) then TruncatedMessage
    else Parsed(|bs| - MessageSize(bs[0]))
  }

  // ------------------------------------------------------------------ text fields

  function PutAlpha(value: seq<byte>, size: nat): (bs: seq<byte>)
    ensures |bs| == size
  {
    var copied := if |value| < size then |value| else size;
    value[..copied] + seq(size - copied, _ => SPACE)
  }

  /** Without its trailing spaces. */
  function Trim(value: seq<byte>): seq<byte> {
    if value != [] && value[|value| - 1] == SPACE then Trim(value[..|value| - 1]) else value
  }

  /** The loop of `print_alpha`. */
  method PrintAlpha(value: seq<byte>) returns (shown: seq<byte>)
    ensures shown == Trim(value)
  {
    var size: nat := |value|;
    assert value[..size] == value;
    while size > 0 && value[size - 1] == SPACE
      invariant size <= |value| && Trim(value[..size]) == Trim(value)
    {
      assert value[..size][..size - 1] == value[..size - 1];
      size := size - 1;
    }
    shown := value[..size];
  }

  lemma {:induction false} TrimPadded(value: seq<byte>, spaces: nat)
    ensures Trim(value + seq(spaces, _ => SPACE)) == Trim(value)
    decreases spaces
  {
    var padded := value + seq(spaces, _ => SPACE);
    if spaces == 0 {
      assert padded == value;
    } else {
      assert padded[..|padded| - 1] == value + seq(spaces - 1, _ => SPACE);
      TrimPadded(value, spaces - 1);
    }
  }

  lemma {:induction false} TrimShortens(value: seq<byte>)
    ensures |Trim(value)| <= |value|
    ensures Trim(value) == value <==> value == [] || value[|value| - 1] != SPACE
  {
    if value != [] && value[|value| - 1] == SPACE { TrimShortens(value[..|value| - 1]); }
  }

  /** A text survives padding and printing exactly when it fits and does not end in a space. */
  lemma AlphaReadsBack(value: seq<byte>, size: nat)
    ensures Trim(PutAlpha(value, size)) == value <==> |value| <= size && (value == [] || value[|value| - 1] != SPACE)
  {
    TrimShortens(PutAlpha(value, size));
    if |value| <= size {
      assert value[..|value|] == value;
      TrimPadded(value, size - |value|);
      TrimShortens(value);
    }
  }

  // ------------------------------------------------------------------ building

  function Kind(m: Message): byte {
    match m
    case SystemEvent(_, _, _, _) => 'S' as int
    case AddOrder(_, _, _, _, _, _, _, _) => 'A' as int
    case OrderExecuted(_, _, _, _, _, _) => 'E' as int
    case OrderDelete(_, _, _, _) => 'D' as int
    case Trade(_, _, _, _, _, _, _, _, _) => 'P' as int
  }

  /** The fields every message begins with. */
  function Head(m: Message): seq<byte> {
    [Kind(m)] + Digits(m.locate, 2) + Digits(m.tracking, 2) + Digits(m.timestamp % TWO_48, 6)
  }

  function OrderFields(orderRef: u64, side: byte, shares: u32, symbol: seq<byte>, price: u32): seq<byte> {
    Digits(orderRef, 8) + [side] + Digits(shares, 4) + PutAlpha(symbol, SYMBOL_SIZE) + Digits(price, 4)
  }

  /** The fields in wire order. */
  function Encode(m: Message): seq<byte> {
    Head(m) +
    match m
    case SystemEvent(_, _, _, code) => [code]
    case AddOrder(_, _, _, orderRef, side, shares, symbol, price) => OrderFields(orderRef, side, shares, symbol, price)
    case OrderExecuted(_, _, _, orderRef, shares, matched) =>
      Digits(orderRef, 8) + Digits(shares, 4) + Digits(matched, 8)
    case OrderDelete(_, _, _, orderRef) => Digits(orderRef, 8)
    case Trade(_, _, _, orderRef, side, shares, symbol, price, matched) =>
      OrderFields(orderRef, side, shares, symbol, price) + Digits(matched, 8)
  }

  method Put(out: seq<byte>, v: nat, n: nat) returns (r: seq<byte>)
    ensures r == out + Digits(v, n)
  {
    PutBeIsDigits(v, n);
    r := out + PutBe(v, n);
  }

  method PutU48(out: seq<byte>, v: nat) returns (r: seq<byte>)
    ensures r == out + Digits(v % TWO_48, 6)
  {
    PutU48IsDigits(v);
    r := out + PutU48Be(v);
  }

  method MakeHead(m: Message) returns (msg: seq<byte>)
    ensures msg == Head(m)
  {
    msg := [Kind(m)];
    msg := Put(msg, m.locate, 2);
    msg := Put(msg, m.tracking, 2);
    msg := PutU48(msg, m.timestamp);
  }

  method PutOrder(out: seq<byte>, orderRef: u64, side: byte, shares: u32, symbol: seq<byte>, price: u32)
    returns (msg: seq<byte>)
    ensures msg == out + OrderFields(orderRef, side, shares, symbol, price)
  {
    msg := Put(out, orderRef, 8);
    msg := msg + [side];
    msg := Put(msg, shares, 4);
    msg := msg + PutAlpha(symbol, SYMBOL_SIZE);
    msg := Put(msg, price, 4);
  }

  /** The `make_*` builders: one vector, appended to field by field. */
  method Make(m: Message) returns (msg: seq<byte>)
    ensures msg == Encode(m)
  {
    msg := MakeHead(m);
    match m {
      case SystemEvent(_, _, _, code) =>
        msg := msg + [code];
      case AddOrder(_, _, _, orderRef, side, shares, symbol, price) =>
        msg := PutOrder(msg, orderRef, side, shares, symbol, price);
      case OrderExecuted(_, _, _, orderRef, shares, matched) =>
        msg := Put(msg, orderRef, 8);
        msg := Put(msg, shares, 4);
        msg := Put(msg, matched, 8);
      case OrderDelete(_, _, _, orderRef) =>
        msg := Put(msg, orderRef, 8);
      case Trade(_, _, _, orderRef, side, shares, symbol, price, matched) =>
        msg := PutOrder(msg, orderRef, side, shares, symbol, price);
        msg := Put(msg, matched, 8);
    }
  }

  // ------------------------------------------------------------------ reading through packed structs

  function Field(bs: seq<byte>, offset: nat, n: nat): (v: nat)
    requires offset + n <= |bs|
    ensures v < Pow256(n)
  {
    ReadBe(bs[offset..offset + n])
  }

  /** The struct the type byte selects, field by field at its packed offset. */
  function Fields(bs: seq<byte>): Message
    requires |bs| >= HEADER_SIZE && |bs| >= MessageSize(bs[0]) && bs[0] as char in {'S', 'A', 'E', 'D', 'P'}
  {
    Pow256Values();
    var locate, tracking := Field(bs, 1, 2), Field(bs, 3, 2);
    var timestamp := ReadU48Be(bs[5..11]);
    ReadU48IsValue(bs[5..11]);
    match bs[0] as char
    case 'S' => SystemEvent(locate, tracking, timestamp, bs[11])
    case 'A' => AddOrder(locate, tracking, timestamp, Field(bs, 11, 8), bs[19], Field(bs, 20, 4), bs[24..32],
                            Field(bs, 32, 4))
    case 'E' => OrderExecuted(locate, tracking, timestamp, Field(bs, 11, 8), Field(bs, 19, 4), Field(bs, 23, 8))
    case 'D' => OrderDelete(locate, tracking, timestamp, Field(bs, 11, 8))
    case _ => Trade(locate, tracking, timestamp, Field(bs, 11, 8), bs[19], Field(bs, 20, 4), bs[24..32],
                      Field(bs, 32, 4), Field(bs, 36, 8))
  }

  /** What a message is after the wire: timestamps modulo 2^48, symbols padded or cut to eight bytes. */
  function Normal(m: Message): Message {
    var t := m.(timestamp := m.timestamp % TWO_48);
    if m.AddOrder? || m.Trade? then t.(symbol := PutAlpha(m.symbol, SYMBOL_SIZE)) else t
  }

  /** Read through the struct its type selects, the message is `m` as the wire keeps it. */
  predicate ReadsAs(bs: seq<byte>, m: Message) {
    && |bs| >= HEADER_SIZE && |bs| >= MessageSize(bs[0]) && bs[0] as char in {'S', 'A', 'E', 'D', 'P'}
    && Fields(bs) == Normal(m)
  }

  lemma FieldReadsBack(bs: seq<byte>, offset: nat, v: nat, n: nat)
    requires offset + n <= |bs| && bs[offset..offset + n] == Digits(v, n) && v < Pow256(n)
    ensures Field(bs, offset, n) == v
  {
    ReadersAgree(bs[offset..offset + n]);
    DigitsReadBack(v, n);
  }

  lemma HeaderReadsBack(m: Message, bs: seq<byte>)
    requires bs == Encode(m)
    ensures |bs| == MessageSize(bs[0]) && bs[0] == Kind(m)
    ensures Field(bs, 1, 2) == m.locate && Field(bs, 3, 2) == m.tracking
    ensures ReadU48Be(bs[5..11]) == m.timestamp % TWO_48
  {
    Pow256Values();
    assert bs[1..3] == Digits(m.locate, 2) && bs[3..5] == Digits(m.tracking, 2);
    assert bs[5..11] == Digits(m.timestamp % TWO_48, 6);
    FieldReadsBack(bs, 1, m.locate, 2);
    FieldReadsBack(bs, 3, m.tracking, 2);
    ReadU48IsValue(bs[5..11]);
    DigitsReadBack(m.timestamp % TWO_48, 6);
  }

  lemma OrderPlaces(m: Message, bs: seq<byte>)
    requires bs == Encode(m) && (m.AddOrder? || m.Trade?)
    ensures |bs| >= 36 && bs[11..19] == Digits(m.orderRef, 8) && bs[19] == m.side && bs[20..24] == Digits(m.shares, 4)
    ensures bs[24..32] == PutAlpha(m.symbol, SYMBOL_SIZE) && bs[32..36] == Digits(m.price, 4)
  {
    var order := OrderFields(m.orderRef, m.side, m.shares, m.symbol, m.price);
    assert bs[11..36] == order;
    assert bs[11..19] == order[..8] && bs[20..24] == order[9..13] && bs[24..32] == order[13..21]
           && bs[32..36] == order[21..25];
  }

  lemma OrderReadsBack(m: Message, bs: seq<byte>)
    requires bs == Encode(m) && (m.AddOrder? || m.Trade?)
    ensures |bs| >= 36 && Field(bs, 11, 8) == m.orderRef && bs[19] == m.side && Field(bs, 20, 4) == m.shares
    ensures bs[24..32] == PutAlpha(m.symbol, SYMBOL_SIZE) && Field(bs, 32, 4) == m.price
  {
    OrderPlaces(m, bs);
    Pow256Values();
    FieldReadsBack(bs, 11, m.orderRef, 8);
    FieldReadsBack(bs, 20, m.shares, 4);
    FieldReadsBack(bs, 32, m.price, 4);
  }

  lemma ExecutedReadsBack(m: Message, bs: seq<byte>)
    requires bs == Encode(m) && m.OrderExecuted?
    ensures |bs| == 31 && Field(bs, 11, 8) == m.orderRef && Field(bs, 19, 4) == m.shares
            && Field(bs, 23, 8) == m.matched
  {
    assert bs[11..19] == Digits(m.orderRef, 8) && bs[19..23] == Digits(m.shares, 4)
           && bs[23..31] == Digits(m.matched, 8);
    Pow256Values();
    FieldReadsBack(bs, 11, m.orderRef, 8);
    FieldReadsBack(bs, 19, m.shares, 4);
    FieldReadsBack(bs, 23, m.matched, 8);
  }

  /** A built message has no extra bytes, and every field reads back. */
  lemma MessageReadsBack(m: Message)
    ensures ParseMessage(Encode(m)) == Parsed(0) && ReadsAs(Encode(m), m)
  {
    var bs := Encode(m);
    HeaderReadsBack(m, bs);
    Pow256Values();
    match m {
      case SystemEvent(_, _, _, _) =>
      case AddOrder(_, _, _, _, _, _, _, _) => OrderReadsBack(m, bs);
      case OrderExecuted(_, _, _, _, _, _) => ExecutedReadsBack(m, bs);
      case OrderDelete(_, _, _, orderRef) =>
        assert bs[11..19] == Digits(orderRef, 8);
        FieldReadsBack(bs, 11, orderRef, 8);
      case Trade(_, _, _, _, _, _, _, _, matched) =>
        OrderReadsBack(m, bs);
        assert bs[36..44] == Digits(matched, 8);
        FieldReadsBack(bs, 36, matched, 8);
    }
  }

  /** A text field: the text as far as it fits, and behind it spaces. */
  lemma {:induction false} AlphaBytes(value: seq<byte>, size: nat, i: nat)
    requires i < size
    ensures PutAlpha(value, size)[i] == if i < |value| then value[i] else 0x20
  {
  }

  /** Bytes behind a built message are extra, all of them; any part of it alone is refused. */
  lemma {:induction false} ParseExactly(m: Message, extra: seq<byte>, k: nat)
    ensures ParseMessage(Encode(m) + extra) == Parsed(|extra|)
    ensures k < |Encode(m)| ==> ParseMessage(Encode(m)[..k]) == TruncatedMessage
  {
    HeaderReadsBack(m, Encode(m));
    assert (Encode(m) + extra)[0] == Encode(m)[0];
  }

  /** Where the fields of each message lie: the common header, then the fields of the type, in network order. */
  lemma {:induction false} HeadPlaces(m: Message, bs: seq<byte>)
    requires bs == Encode(m)
    ensures |bs| >= 11 && bs[1..3] == Digits(m.locate, 2) && bs[3..5] == Digits(m.tracking, 2)
    ensures bs[5..11] == Digits(m.timestamp % 0x1_0000_0000_0000, 6)
    ensures bs[0] == if m.SystemEvent? then 83 else if m.AddOrder? then 65 else if m.OrderExecuted? then 69
                     else if m.OrderDelete? then 68 else 80
  {
    assert bs[..11] == Head(m);
    assert bs[1..3] == bs[..11][1..3] && bs[3..5] == bs[..11][3..5] && bs[5..11] == bs[..11][5..11];
  }

  lemma {:induction false} TailPlaces(m: Message, bs: seq<byte>)
    requires bs == Encode(m)
    ensures m.SystemEvent? ==> |bs| == 12 && bs[11] == m.code
    ensures m.OrderDelete? ==> |bs| == 19 && bs[11..19] == Digits(m.orderRef, 8)
    ensures m.OrderExecuted? ==> |bs| == 31 && bs[11..19] == Digits(m.orderRef, 8)
                                 && bs[19..23] == Digits(m.shares, 4) && bs[23..31] == Digits(m.matched, 8)
    ensures m.AddOrder? || m.Trade? ==>
            |bs| == (if m.AddOrder? then 36 else 44) && bs[11..19] == Digits(m.orderRef, 8) && bs[19] == m.side
            && bs[20..24] == Digits(m.shares, 4) && bs[32..36] == Digits(m.price, 4)
            && bs[24..32] == PutAlpha(m.symbol, 8)
    ensures m.Trade? ==> bs[36..44] == Digits(m.matched, 8)
  {
    if m.AddOrder? || m.Trade? { OrderPlaces(m, bs); }
  }
}
