/** The bytes pb_encode writes, as a function of descriptor and struct. */
module Serialize {
  import opened Bits
  import opened Descriptor
  import opened Varints

  const WT_VARINT: nat := 0
  const WT_64BIT: nat := 1
  const WT_STRING: nat := 2
  const WT_32BIT: nat := 5

  /** The wire type pb_encode_tag_for_field chooses. */
  function WireType(f: Field): (wt: nat)
    ensures wt < 8
  {
    match f.ltype
    case Bool => WT_VARINT
    case Varint => WT_VARINT
    case UVarint => WT_VARINT
    case SVarint => WT_VARINT
    case Fixed32 => WT_32BIT
    case Fixed64 => WT_64BIT
    case _ => WT_STRING
  }

  /** pb_encode_tag. */
  function Key(tag: nat, wireType: nat): bytes {
    Enc(8 * tag + wireType)
  }

  /** pb_encode_string. */
  function Prefixed(s: bytes): bytes {
    Enc(|s|) + s
  }

  /** The checks that the encoders make on one item, beyond its type. */
  predicate EncodableValue(f: Field, v: Value)
    decreases f, 0
  {
    match f.ltype
    case Varint => IntSize(f.dataSize)
    case UVarint => IntSize(f.dataSize)
    case SVarint => IntSize(f.dataSize)
    case Bytes => v.BytesV? && v.size <= |v.buf|
    case Submessage => v.MessageV? && Encodable(f.sub, v.slots)
    case _ => true
  }

  /** One item, as the LTYPE's encoder function writes it. */
  function SerValue(f: Field, v: Value): bytes
    decreases f, 0
  {
    match (f.ltype, v)
    case (Bool, BoolV(b)) => Enc(if b then 1 else 0)
    case (Varint, IntV(i)) => Enc(AsU64(i))
    case (UVarint, IntV(i)) => Enc(AsU64(i))
    case (SVarint, IntV(i)) => Enc(ZigZag(i))
    case (Fixed32, IntV(i)) => LittleEndian(4, i % U32)
    case (Fixed64, IntV(i)) => LittleEndian(8, i % U64)
    case (Bytes, BytesV(size, buf)) => Prefixed(if size <= |buf| then buf[..size] else buf)
    case (String, StringV(buf)) => Prefixed(CString(buf))
    case (FixedLengthBytes, FixedBytesV(buf)) => Prefixed(buf)
    case (Submessage, MessageV(slots)) => Prefixed(Ser(f.sub, slots))
    case _ => []
  }

  /** Items of an array one after the other: the body of a packed array. */
  function SerItems(f: Field, items: seq<Value>): bytes
    decreases f, 1, |items|
  {
    if items == [] then [] else SerValue(f, items[0]) + SerItems(f, items[1..])
  }

  /** Items of an array, each behind its own key. */
  function SerKeyedItems(f: Field, items: seq<Value>): bytes
    decreases f, 1, |items|
  {
    if items == [] then [] else Key(f.tag, WireType(f)) + SerValue(f, items[0]) + SerKeyedItems(f, items[1..])
  }

  /** encode_array. */
  function SerArray(f: Field, items: seq<Value>): bytes
    decreases f, 2
  {
    if items == [] then []
    else if f.Packable() then Key(f.tag, WT_STRING) + Prefixed(SerItems(f, items))
    else SerKeyedItems(f, items)
  }

  /** pb_check_proto3_default_value, on the slot that holds the entry. */
  predicate IsDefault(f: Field, s: Slot)
    decreases f, 1
  {
    if f.htype == Required then false
    else if f.htype == Repeated then f.sizeOffset != 0 && s.Counted? && s.count == 0
    else if f.htype == Oneof then s.Union? && s.which == 0
    else if f.sizeOffset != 0 then s.Has? && !s.has
    else s.Single? && IsDefaultValue(f, s.v)
  }

  /** Its last part, on the data of a proto3 singular field. */
  predicate IsDefaultValue(f: Field, v: Value)
    decreases f, 0
  {
    match v
    case BoolV(b) => !b
    case IntV(i) => i == 0
    case BytesV(size, _) => size == 0
    case StringV(buf) => |buf| > 0 && buf[0] == 0
    case FixedBytesV(_) => f.dataSize == 0
    case MessageV(slots) =>
      |slots| == |f.sub| && forall h | 0 <= h < |f.sub| :: IsDefault(f.sub[h], slots[SlotOf(f.sub, h)])
  }

  /** The items of a repeated slot that the encoder visits. */
  function Live(s: Slot): seq<Value> {
    match s
    case Counted(count, items) => if count <= |items| then items[..count] else items
    case Array(items) => items
    case _ => []
  }

  predicate EncodableSlot(f: Field, s: Slot)
    decreases f, 1
  {
    match f.htype
    case Required => s.Single? && EncodableValue(f, s.v)
    case Optional =>
      if f.Singular() then s.Single? && (!IsDefault(f, s) ==> EncodableValue(f, s.v))
      else s.Has? && (s.has ==> EncodableValue(f, s.v))
    case Repeated => (s.Counted? ==> s.count <= f.arraySize) && forall k | 0 <= k < |Live(s)| :: EncodableValue(f, Live(s)[k])
    case Oneof => s.Union? && (s.which == f.tag ==> EncodableValue(f, s.v))
  }

  /** No check in the encoder fails: array counts, byte counts and integer sizes are all in range. */
  predicate Encodable(fields: seq<Field>, slots: seq<Slot>)
    decreases fields
  {
    |slots| == |fields| && forall i | 0 <= i < |fields| :: EncodableSlot(fields[i], slots[SlotOf(fields, i)])
  }

  /** encode_basic_field. */
  function SerSlot(f: Field, s: Slot): bytes
    decreases f, 3
  {
    match f.htype
    case Required => if s.Single? then Key(f.tag, WireType(f)) + SerValue(f, s.v) else []
    case Optional =>
      if f.Singular() then
        if s.Single? && !IsDefault(f, s) then Key(f.tag, WireType(f)) + SerValue(f, s.v) else []
      else
        if s.Has? && s.has then Key(f.tag, WireType(f)) + SerValue(f, s.v) else []
    case Repeated => SerArray(f, Live(s))
    case Oneof => if s.Union? && s.which == f.tag then Key(f.tag, WireType(f)) + SerValue(f, s.v) else []
  }

  function SerFrom(fields: seq<Field>, slots: seq<Slot>, i: nat): bytes
    requires i <= |fields| == |slots|
    decreases fields, 1, |fields| - i
  {
    if i == |fields| then []
    else SerSlot(fields[i], slots[SlotOf(fields, i)]) + SerFrom(fields, slots, i + 1)
  }

  /** pb_encode. */
  function Ser(fields: seq<Field>, slots: seq<Slot>): bytes
    decreases fields, 2
  {
    if |slots| == |fields| then SerFrom(fields, slots, 0) else []
  }
}
