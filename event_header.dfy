/**
 * The 64-bit header word that starts every record in a ring.
 *
 * The field layout follows the macros RUNTIME_EVENTS_HEADER and
 * RUNTIME_EVENTS_ITEM_* of runtime/caml/runtime_events.h, which is not part
 * of this model: the length (in words, header and timestamp included) sits in
 * bits 54..63, the category bit in bit 53, the message type in bits 49..52 and
 * the event id in bits 36..48. Two parts of that layout are fixed by
 * runtime_events.c itself. The padding header `distance << 54` leaves exactly
 * ten bits for the length and zero everywhere else; and since the triple
 * (runtime, EV_INTERNAL, 0) is reserved for padding, a header whose category
 * bit, type and id are all zero is a runtime one: the category bit is clear
 * for runtime records and set for user records. Words are unsigned 64-bit
 * integers; a shift to the left is a multiplication by a power of two reduced
 * modulo 2^64, and the bitwise or of fields that do not overlap is their sum.
 */
module EventHeader {

  import opened Arith

  const WordLimit: nat := 0x1_0000_0000_0000_0000

  /** A uint64_t. */
  type Word = x: nat | x < WordLimit

  /** RUNTIME_EVENTS_MAX_MSG_LENGTH: 2^10, the range of the length field. */
  const MaxMsgLength: nat := 1024

  /** Place values of the four fields: 2^54, 2^53, 2^49 and 2^36. */
  const LengthUnit: nat := 0x40_0000_0000_0000
  const CategoryUnit: nat := 0x20_0000_0000_0000
  const TypeUnit: nat := 0x2_0000_0000_0000
  const IdUnit: nat := 0x10_0000_0000

  /** Ranges of the type and id fields (four and thirteen bits). */
  const TypeLimit: nat := 16
  const IdLimit: nat := 8192

  /** ev_runtime_message_type, in the header's enumeration order. */
  datatype RuntimeType = Internal | Lifecycle | Begin | Exit | Counter | Alloc | Flush

  /** ev_user_message_type, in the header's enumeration order. */
  datatype UserType = UnitMsg | IntMsg | SpanBegin | SpanEnd | CustomMsg

  /**
   * A category (runtime or user) together with the message type of that
   * category: the pair (ev_category, ev_message_type) that write_to_ring takes.
   */
  datatype MessageType = Runtime(rt: RuntimeType) | User(ut: UserType)
  {
    predicate IsRuntime() { Runtime? }

    /** The category bit: clear for the runtime category, set for the user category. */
    function CategoryBit(): nat
    {
      if IsRuntime() then 0 else 1
    }

    /** The value of `type.runtime | type.user`: the enumerator's ordinal. */
    function Code(): (c: nat)
      ensures c < TypeLimit
      ensures Runtime? && rt == Internal ==> c == 0
      ensures User? && ut == UnitMsg ==> c == 0
    {
      match this
      case Runtime(t) =>
        (match t
         case Internal => 0 case Lifecycle => 1 case Begin => 2 case Exit => 3
         case Counter => 4 case Alloc => 5 case Flush => 6)
      case User(t) =>
        (match t
         case UnitMsg => 0 case IntMsg => 1 case SpanBegin => 2 case SpanEnd => 3
         case CustomMsg => 4)
    }
  }

  /** RUNTIME_EVENTS_ITEM_LENGTH. */
  function ItemLength(h: Word): nat
  {
    (h / LengthUnit) % MaxMsgLength
  }

  /** RUNTIME_EVENTS_ITEM_IS_RUNTIME: the category bit is clear. */
  predicate ItemIsRuntime(h: Word)
  {
    (h / CategoryUnit) % 2 == 0
  }

  /** RUNTIME_EVENTS_ITEM_TYPE. */
  function ItemType(h: Word): nat
  {
    (h / TypeUnit) % TypeLimit
  }

  /** RUNTIME_EVENTS_ITEM_ID. */
  function ItemId(h: Word): nat
  {
    (h / IdUnit) % IdLimit
  }

  /** `(uint64_t)length << 54`: the length field, bits above 63 dropped. */
  function ShiftedLength(length: nat): (w: Word)
    ensures w == (length % MaxMsgLength) * LengthUnit
  {
    var q, m := length / MaxMsgLength, length % MaxMsgLength;
    assert length * LengthUnit == q * WordLimit + m * LengthUnit;
    DivUnique(length * LengthUnit, WordLimit, q, m * LengthUnit);
    (length * LengthUnit) % WordLimit
  }

  /**
   * RUNTIME_EVENTS_HEADER(length, is_runtime, type, id). A length of 2^10 or
   * more is cut to its low ten bits, as the 64-bit shift of the macro does
   * (ShiftedLength); HeaderFields states what each field decodes to.
   */
  function Header(length: nat, msg: MessageType, eventId: nat): Word
    requires eventId < IdLimit
  {
    (length % MaxMsgLength) * LengthUnit + msg.CategoryBit() * CategoryUnit
      + msg.Code() * TypeUnit + eventId * IdUnit
  }

  /**
   * The padding header `distance << 54` written where a record would
   * straddle the physical end of the ring: only the length field is set.
   */
  function PaddingHeader(distance: nat): Word
  {
    (distance % MaxMsgLength) * LengthUnit
  }

  /** The length field of a header is the 64-bit shift of the length. */
  lemma HeaderLengthIsShift(length: nat, msg: MessageType, eventId: nat)
    requires eventId < IdLimit
    ensures Header(length, msg, eventId) == ShiftedLength(length) + Header(0, msg, eventId)
    ensures PaddingHeader(length) == ShiftedLength(length)
  {
  }

  /** Every field of a header decodes to what was packed, the length cut to ten bits. */
  lemma HeaderFields(length: nat, msg: MessageType, eventId: nat)
    requires eventId < IdLimit
    ensures var h := Header(length, msg, eventId);
      && ItemLength(h) == length % MaxMsgLength
      && ItemIsRuntime(h) == msg.IsRuntime()
      && ItemType(h) == msg.Code()
      && ItemId(h) == eventId
  {
    var l, r, t := length % MaxMsgLength, msg.CategoryBit(), msg.Code();
    var h := Header(length, msg, eventId);
    FieldAt(h, LengthUnit, 0, l, MaxMsgLength, r * CategoryUnit + t * TypeUnit + eventId * IdUnit);
    FieldAt(h, CategoryUnit, l, r, 2, t * TypeUnit + eventId * IdUnit);
    FieldAt(h, TypeUnit, l * 2 + r, t, TypeLimit, eventId * IdUnit);
    FieldAt(h, IdUnit, (l * 2 + r) * TypeLimit + t, eventId, IdLimit, 0);
  }

  /**
   * A padding word decodes to its distance, cut to ten bits, and to the
   * reserved triple: runtime category, type EV_INTERNAL (0) and id 0.
   */
  lemma PaddingFields(distance: nat)
    ensures var h := PaddingHeader(distance);
      ItemLength(h) == distance % MaxMsgLength && ItemIsRuntime(h) && ItemType(h) == 0 && ItemId(h) == 0
  {
    var h := PaddingHeader(distance);
    FieldAt(h, LengthUnit, 0, distance % MaxMsgLength, MaxMsgLength, 0);
    FieldAt(h, CategoryUnit, distance % MaxMsgLength, 0, 2, 0);
    FieldAt(h, TypeUnit, (distance % MaxMsgLength) * 2, 0, TypeLimit, 0);
    FieldAt(h, IdUnit, (distance % MaxMsgLength) * 2 * TypeLimit, 0, IdLimit, 0);
  }

  /** A reader's test for padding: the header carries the reserved triple. */
  predicate IsPadding(h: Word)
  {
    ItemIsRuntime(h) && ItemType(h) == 0 && ItemId(h) == 0
  }

  /**
   * The reservation: a header reads as padding exactly when it is built from
   * the triple (runtime, EV_INTERNAL, 0), and it equals a padding word
   * exactly then, for the same length cut to ten bits.
   */
  lemma HeaderIsPaddingIff(length: nat, msg: MessageType, eventId: nat, distance: nat)
    requires eventId < IdLimit
    ensures IsPadding(Header(length, msg, eventId)) <==> msg == Runtime(Internal) && eventId == 0
    ensures Header(length, msg, eventId) == PaddingHeader(distance) <==>
      msg == Runtime(Internal) && eventId == 0 && length % MaxMsgLength == distance % MaxMsgLength
    ensures IsPadding(PaddingHeader(distance))
  {
    HeaderFields(length, msg, eventId);
    PaddingFields(distance);
    if IsPadding(Header(length, msg, eventId)) {
      assert msg.IsRuntime() && msg.Code() == 0;
    }
  }

  /**
   * The assertion `event_length < RUNTIME_EVENTS_MAX_MSG_LENGTH` admits an
   * event of 1022 payload words, whose total length 1024 does not fit the
   * ten-bit field: its header decodes to length 0, as does a padding word for
   * a distance of 1024. Evicting such a record would not advance the head.
   */
  lemma AssertedBoundOverflowsLengthField(msg: MessageType, eventId: nat)
    requires eventId < IdLimit
    ensures 1022 < MaxMsgLength
    ensures ItemLength(Header(1022 + 2, msg, eventId)) == 0
    ensures ItemLength(PaddingHeader(1024)) == 0
  {
    HeaderFields(1022 + 2, msg, eventId);
    PaddingFields(1024);
  }

  /** Below the ten-bit limit the length field is exact. */
  lemma HeaderLengthExact(length: nat, msg: MessageType, eventId: nat)
    requires length < MaxMsgLength && eventId < IdLimit
    ensures ItemLength(Header(length, msg, eventId)) == length
    ensures ItemLength(PaddingHeader(length)) == length
  {
    HeaderFields(length, msg, eventId);
    PaddingFields(length);
  }
}
