/** Message descriptors (pb_field_t arrays) and the C structs they describe. */
module Descriptor {
  // A struct is a sequence of slots, one per descriptor entry.  The members of a oneof share the slot of
  // the first member, as they share one union and one `which_` word in C.

  import opened Bits
  import opened Options

  type bytes = seq<byte>

  datatype LType = Bool | Varint | UVarint | SVarint | Fixed32 | Fixed64
    | Bytes | String | Submessage | FixedLengthBytes

  datatype HType = Required | Optional | Repeated | Oneof

  /** One pb_field_t with static allocation.  `ptr` is split into `sub` (submessages) and `init` (defaults). */
  datatype Field = Field(tag: nat, ltype: LType, htype: HType,
                         dataOffset: nat, sizeOffset: int, dataSize: nat, arraySize: nat,
                         sub: seq<Field>, init: Option<Value>)
  {
    /** Types up to PB_LTYPE_LAST_PACKABLE. */
    predicate Packable() {
      ltype in {Bool, Varint, UVarint, SVarint, Fixed32, Fixed64}
    }

    /** Repeated without a count word in the struct. */
    predicate FixedCount() {
      htype == Repeated && sizeOffset == 0
    }

    /** proto3 style: optional without a `has_` word. */
    predicate Singular() {
      htype == Optional && sizeOffset == 0
    }

    /** An entry whose data sits inside the union of the entry before it. */
    predicate InUnion() {
      htype == Oneof && dataOffset == PB_SIZE_MAX
    }
  }

  /** The contents of one data item.  Buffers have their full allocated size. */
  datatype Value =
    | BoolV(b: bool)
    | IntV(i: int)
    | BytesV(size: nat, buf: bytes)
    | StringV(buf: bytes)
    | FixedBytesV(buf: bytes)
    | MessageV(slots: seq<Slot>)

  datatype Slot =
    | Single(v: Value)
    | Has(has: bool, v: Value)
    | Counted(count: nat, items: seq<Value>)
    | Array(items: seq<Value>)
    | Union(which: nat, v: Value)
    | Shared

  /** pb_size_t under PB_FIELD_32BIT. */
  const PB_SIZE_MAX: nat := 0xFFFF_FFFF

  /** offsetof(pb_bytes_array_t, bytes). */
  const BYTES_HEADER: nat := 4

  const PB_MAX_REQUIRED_FIELDS: nat := 64

  // ---------------------------------------------------------------- descriptors

  /** Position of the first entry with the tag. */
  function FindTag(fields: seq<Field>, tag: nat): (r: Option<nat>)
    ensures r.Some? ==> r.value < |fields| && fields[r.value].tag == tag
    ensures r.Some? ==> forall i | 0 <= i < r.value :: fields[i].tag != tag
    ensures r.None? ==> forall i | 0 <= i < |fields| :: fields[i].tag != tag
  {
    FindTagFrom(fields, tag, 0)
  }

  function FindTagFrom(fields: seq<Field>, tag: nat, i: nat): (r: Option<nat>)
    requires i <= |fields|
    ensures r.Some? ==> i <= r.value < |fields| && fields[r.value].tag == tag
    ensures r.Some? ==> forall k | i <= k < r.value :: fields[k].tag != tag
    ensures r.None? ==> forall k | i <= k < |fields| :: fields[k].tag != tag
    decreases |fields| - i
  {
    if i == |fields| then None
    else if fields[i].tag == tag then Some(i)
    else FindTagFrom(fields, tag, i + 1)
  }

  /** The slot an entry's data lives in: its own, or that of the union it continues. */
  function SlotOf(fields: seq<Field>, i: nat): (h: nat)
    requires i < |fields|
    ensures h <= i
  {
    if i > 0 && fields[i].InUnion() && fields[i - 1].htype == Oneof then SlotOf(fields, i - 1) else i
  }

  lemma {:induction false} SlotOfOneof(fields: seq<Field>, i: nat)
    requires i < |fields|
    ensures SlotOf(fields, SlotOf(fields, i)) == SlotOf(fields, i)
    ensures fields[SlotOf(fields, i)].htype == Oneof <==> fields[i].htype == Oneof
  {
    if i > 0 && fields[i].InUnion() && fields[i - 1].htype == Oneof { SlotOfOneof(fields, i - 1); }
  }

  /** The union member selected by a `which_` word. */
  function Selected(fields: seq<Field>, h: nat, which: nat): (r: Option<nat>)
    requires h < |fields|
    ensures r.Some? ==> r.value < |fields| && SlotOf(fields, r.value) == h && fields[r.value].tag == which
  {
    match FindTag(fields, which)
    case None => None
    case Some(j) => if SlotOf(fields, j) == h then Some(j) else None
  }

  predicate DistinctTags(fields: seq<Field>) {
    forall i, j | 0 <= i < j < |fields| :: fields[i].tag != fields[j].tag
  }

  lemma FindOwnTag(fields: seq<Field>, i: nat)
    requires i < |fields| && DistinctTags(fields)
    ensures FindTag(fields, fields[i].tag) == Some(i)
  {
  }

  /** Sizes of the C integer types a varint field may be stored in. */
  predicate IntSize(dataSize: nat) {
    dataSize in {1, 2, 4, 8}
  }

  /** Number of values of an integer of `dataSize` bytes. */
  function IntRange(dataSize: nat): nat
    requires IntSize(dataSize)
  {
    if dataSize == 1 then 0x100 else if dataSize == 2 then 0x1_0000 else if dataSize == 4 then U32 else U64
  }

  /** The signed integers stored in the field are those from -Half to Half - 1. */
  function Half(f: Field): int
    requires IntSize(f.dataSize)
  {
    IntRange(f.dataSize) / 2
  }

  /** What the generator guarantees of the descriptor arrays it prints. */
  predicate ValidFields(fields: seq<Field>) {
    && DistinctTags(fields)
    && forall i | 0 <= i < |fields| :: ValidField(fields[i]) && (fields[i].InUnion() ==> i > 0 && fields[i - 1].htype == Oneof)
  }

  predicate ValidField(f: Field) {
    && 1 <= f.tag < 0x2000_0000
    && f.dataSize <= PB_SIZE_MAX && f.arraySize <= PB_SIZE_MAX
    && (f.htype == Required ==> f.sizeOffset == 0)
    && (f.htype == Oneof ==> f.sizeOffset != 0)
    && (f.ltype == String ==> f.dataSize >= 1)
    && (f.ltype == Bytes ==> f.dataSize >= BYTES_HEADER)
    && (f.ltype in {Varint, UVarint, SVarint} ==> f.dataSize > 0)
    && (f.init.Some? ==> f.ltype != Submessage && !f.Singular() && ShapedValue(f, f.init.value))
    && ValidFields(f.sub)
  }

  // ---------------------------------------------------------------- structs

  /** The struct item has the C type its descriptor says. */
  predicate ShapedValue(f: Field, v: Value)
    decreases f
  {
    match f.ltype
    case Bool => v.BoolV?
    case Varint => v.IntV? && (IntSize(f.dataSize) ==> -Half(f) <= v.i < Half(f))
    case SVarint => v.IntV? && (IntSize(f.dataSize) ==> -Half(f) <= v.i < Half(f))
    case UVarint => v.IntV? && (IntSize(f.dataSize) ==> 0 <= v.i < IntRange(f.dataSize))
    case Fixed32 => v.IntV? && 0 <= v.i < U32
    case Fixed64 => v.IntV? && 0 <= v.i < U64
    case Bytes => v.BytesV? && |v.buf| + BYTES_HEADER == f.dataSize && v.size <= PB_SIZE_MAX
    case String => v.StringV? && |v.buf| == f.dataSize
    case FixedLengthBytes => v.FixedBytesV? && |v.buf| == f.dataSize
    case Submessage => v.MessageV? && Shaped(f.sub, v.slots)
  }

  /** The slot at entry `h` matches the descriptor; a union matches the member its `which_` names, if any. */
  predicate ShapedSlot(fields: seq<Field>, h: nat, s: Slot)
    requires h < |fields|
    decreases fields, 0
  {
    var f := fields[h];
    if SlotOf(fields, h) != h then s.Shared?
    else match f.htype
      case Required => s.Single? && ShapedValue(f, s.v)
      case Optional => if f.Singular() then s.Single? && ShapedValue(f, s.v) else s.Has? && ShapedValue(f, s.v)
      case Repeated =>
        && (if f.FixedCount() then s.Array? else s.Counted?)
        && |s.items| == f.arraySize
        && forall k | 0 <= k < |s.items| :: ShapedValue(f, s.items[k])
      case Oneof =>
        && s.Union?
        && var j := Selected(fields, h, s.which);
           (j.Some? ==> ShapedValue(fields[j.value], s.v))
  }

  predicate Shaped(fields: seq<Field>, slots: seq<Slot>)
    decreases fields, 1
  {
    && |slots| == |fields|
    && forall h | 0 <= h < |fields| :: ShapedSlot(fields, h, slots[h])
  }

  /** The slot an entry of this kind keeps its data in. */
  predicate SlotFits(f: Field, slot: Slot) {
    match f.htype
    case Required => slot.Single? && ShapedValue(f, slot.v)
    case Optional => (if f.Singular() then slot.Single? else slot.Has?) && ShapedValue(f, slot.v)
    case Repeated =>
      && (if f.FixedCount() then slot.Array? else slot.Counted?)
      && |slot.items| == f.arraySize && forall k | 0 <= k < |slot.items| :: ShapedValue(f, slot.items[k])
    case Oneof => slot.Union? && (slot.which == f.tag ==> ShapedValue(f, slot.v))
  }

  /** In a struct that matches its descriptor every entry finds such a slot. */
  lemma ShapedFits(fields: seq<Field>, slots: seq<Slot>, i: nat)
    requires ValidFields(fields) && Shaped(fields, slots) && i < |fields|
    ensures ValidField(fields[i]) && SlotFits(fields[i], slots[SlotOf(fields, i)])
  {
    SlotOfOneof(fields, i);
    FindOwnTag(fields, i);
    assert ValidField(fields[i]) && ShapedSlot(fields, SlotOf(fields, i), slots[SlotOf(fields, i)]);
  }

  /** The characters of a C string, up to the terminator or the end of its buffer. */
  function CString(buf: bytes): (s: bytes)
    ensures |s| <= |buf| && s == buf[..|s|]
    ensures |s| < |buf| ==> buf[|s|] == 0
    ensures 0 !in s
  {
    if buf == [] || buf[0] == 0 then [] else [buf[0]] + CString(buf[1..])
  }

  // ---------------------------------------------------------------- zeroed and default structs

  function Zeros(n: nat): (s: bytes)
    ensures |s| == n && forall k | 0 <= k < n :: s[k] == 0
  {
    seq(n, i => 0)
  }

  /** memset to zero of one item. */
  function ZeroValue(f: Field): Value
    decreases f
  {
    match f.ltype
    case Bool => BoolV(false)
    case Bytes => BytesV(0, Zeros(if f.dataSize < BYTES_HEADER then 0 else f.dataSize - BYTES_HEADER))
    case String => StringV(Zeros(f.dataSize))
    case FixedLengthBytes => FixedBytesV(Zeros(f.dataSize))
    case Submessage => MessageV(ZeroSlots(f.sub))
    case _ => IntV(0)
  }

  function ZeroSlot(fields: seq<Field>, h: nat): Slot
    requires h < |fields|
    decreases fields, 0
  {
    var f := fields[h];
    if SlotOf(fields, h) != h then Shared
    else match f.htype
      case Required => Single(ZeroValue(f))
      case Optional => if f.Singular() then Single(ZeroValue(f)) else Has(false, ZeroValue(f))
      case Repeated =>
        var items := seq(f.arraySize, _ => ZeroValue(f));
        if f.FixedCount() then Array(items) else Counted(0, items)
      case Oneof => Union(0, ZeroValue(f))
  }

  function ZeroSlots(fields: seq<Field>): (s: seq<Slot>)
    ensures |s| == |fields|
    decreases fields, 1
  {
    seq(|fields|, h requires 0 <= h < |fields| => ZeroSlot(fields, h))
  }

  /** The data part of pb_field_set_to_default. */
  function DefaultValue(f: Field, old_: Value): Value
    decreases f, 0
  {
    if f.ltype == Submessage then
      if old_.MessageV? then MessageV(Defaults(f.sub, old_.slots)) else old_
    else if f.init.Some? then f.init.value
    else ZeroValue(f)
  }

  function DefaultSlot(f: Field, s: Slot): Slot
    decreases f, 1
  {
    match s
    case Single(v) => Single(DefaultValue(f, v))
    case Has(_, v) => Has(false, DefaultValue(f, v))
    case Counted(_, items) => Counted(0, items)
    case Union(_, v) => Union(0, v)
    case _ => s
  }

  /** pb_message_set_to_defaults. */
  function Defaults(fields: seq<Field>, slots: seq<Slot>): (s: seq<Slot>)
    ensures |s| == |slots|
    decreases fields
  {
    seq(|slots|, h requires 0 <= h < |slots| =>
      if h < |fields| then DefaultSlot(fields[h], slots[h]) else slots[h])
  }

  /** What a union member starts from when the union held another member. */
  function FreshMember(f: Field): Value {
    if f.ltype == Submessage then MessageV(Defaults(f.sub, ZeroSlots(f.sub))) else ZeroValue(f)
  }
}
