/** What pb_decode makes of a window of bytes, as a function of descriptor, struct and window. */
module Deserialize {
  import opened Bits
  import opened Descriptor
  import opened Options
  import opened Varints
  import opened Serialize

  // ---------------------------------------------------------------- reading bytes

  /** pb_read of `n` bytes. */
  function Take(n: nat, s: bytes): (p: Parsed<bytes>)
    ensures p.Ok? ==> |p.rest| == |s| - n
  {
    if n <= |s| then Ok(s[..n], s[n..]) else Fail
  }

  /** A varint32 length and the substream it announces. */
  function Window(s: bytes): (p: Parsed<bytes>)
    ensures p.Ok? ==> |p.value| + |p.rest| < |s|
  {
    match Dec32(s)
    case Fail => Fail
    case Ok(n, r) => Take(n, r)
  }

  /** pb_skip_field. */
  function Skip(wireType: nat, s: bytes): (p: Parsed<()>)
    ensures p.Ok? ==> |p.rest| < |s|
  {
    if wireType == WT_VARINT then SkipVarint(s)
    else
      var p: Parsed<bytes> :=
        if wireType == WT_64BIT then Take(8, s)
        else if wireType == WT_STRING then Window(s)
        else if wireType == WT_32BIT then Take(4, s)
        else Fail;
      match p
      case Fail => Fail
      case Ok(_, r) => Ok((), r)
  }

  // ---------------------------------------------------------------- one item

  /** The (int32_t) and narrower casts of pb_dec_varint, which fail when a value does not survive them. */
  function StoreVarint(dataSize: nat, v: nat): Option<int>
    requires v < U64
  {
    if dataSize == 8 then Some(AsI64(v))
    else if !IntSize(dataSize) then None
    else Fits(dataSize, AsI32(v % U32))
  }

  function StoreUVarint(dataSize: nat, v: nat): Option<int> {
    if IntSize(dataSize) && v < IntRange(dataSize) then Some(v) else None
  }

  function StoreSVarint(dataSize: nat, v: nat): Option<int>
    requires v < U64
  {
    if IntSize(dataSize) then Fits(dataSize, UnZigZag(v)) else None
  }

  function Fits(dataSize: nat, i: int): Option<int>
    requires IntSize(dataSize)
  {
    var half := IntRange(dataSize) / 2;
    if -half <= i < half then Some(i) else None
  }

  /** Writing `data` over the front of a buffer. */
  function Overwrite(buf: bytes, data: bytes): (r: bytes)
    ensures |data| <= |buf| ==> |r| == |buf|
  {
    data + if |data| <= |buf| then buf[|data|..] else []
  }

  /** The LTYPE's decoder function, given what the item held before. */
  function DecValue(f: Field, was: Value, s: bytes): (p: Parsed<Value>)
    ensures p.Ok? ==> |p.rest| <= |s|
    decreases f, 0
  {
    match f.ltype
    case Bool => (
      match Dec32(s)
      case Fail => Fail
      case Ok(v, r) => Ok(BoolV(v != 0), r))
    case Varint => (
      match Dec64(s)
      case Fail => Fail
      case Ok(v, r) =>
        match StoreVarint(f.dataSize, v)
        case None => Fail
        case Some(i) => Ok(IntV(i), r))
    case UVarint => (
      match Dec64(s)
      case Fail => Fail
      case Ok(v, r) =>
        match StoreUVarint(f.dataSize, v)
        case None => Fail
        case Some(i) => Ok(IntV(i), r))
    case SVarint => (
      match Dec64(s)
      case Fail => Fail
      case Ok(v, r) =>
        match StoreSVarint(f.dataSize, v)
        case None => Fail
        case Some(i) => Ok(IntV(i), r))
    case Fixed32 => (
      match Take(4, s)
      case Fail => Fail
      case Ok(b, r) => Ok(IntV(FromLittleEndian(b)), r))
    case Fixed64 => (
      match Take(8, s)
      case Fail => Fail
      case Ok(b, r) => Ok(IntV(FromLittleEndian(b)), r))
    case Bytes => (
      match Window(s)
      case Fail => Fail
      case Ok(data, r) =>
        if |data| + BYTES_HEADER > f.dataSize || !was.BytesV? then Fail
        else Ok(BytesV(|data|, Overwrite(was.buf, data)), r))
    case String => (
      match Window(s)
      case Fail => Fail
      case Ok(data, r) =>
        if |data| + 1 > f.dataSize || !was.StringV? then Fail
        else Ok(StringV(Overwrite(was.buf, data + [0])), r))
    case FixedLengthBytes => (
      match Dec32(s)
      case Fail => Fail
      case Ok(n, r) =>
        if n == 0 then Ok(FixedBytesV(Zeros(f.dataSize)), r)
        else if n != f.dataSize then Fail
        else
          match Take(n, r)
          case Fail => Fail
          case Ok(b, r') => Ok(FixedBytesV(b), r'))
    case Submessage => (
      match Window(s)
      case Fail => Fail
      case Ok(w, r) =>
        if !was.MessageV? then Fail
        else
          var start := if f.htype == Repeated then Defaults(f.sub, was.slots) else was.slots;
          match DecodeNoinit(f.sub, start, w)
          case Fail => Fail
          case Ok(slots, _) => Ok(MessageV(slots), r))
  }

  // ---------------------------------------------------------------- one field

  /** The items of a repeated field and how many of them are filled. */
  datatype Filled = Filled(items: seq<Value>, count: nat)

  /** One more item of a repeated field. */
  function DecItem(f: Field, a: Filled, s: bytes): (p: Parsed<Filled>)
    ensures p.Ok? ==> |p.rest| <= |s| && |p.value.items| == |a.items| && p.value.count == a.count + 1
    decreases f, 1
  {
    if a.count >= f.arraySize || a.count >= |a.items| then Fail
    else
      match DecValue(f, a.items[a.count], s)
      case Fail => Fail
      case Ok(v, r) => Ok(Filled(a.items[a.count := v], a.count + 1), r)
  }

  /** The loop over a packed array's substream, which has to end exactly at the substream's end. */
  function DecPacked(f: Field, a: Filled, w: bytes): (p: Option<Filled>)
    ensures p.Some? ==> |p.value.items| == |a.items|
    decreases f, 2, f.arraySize - a.count
  {
    if w == [] then Some(a)
    else
      match DecItem(f, a, w)
      case Fail => None
      case Ok(a', r) => DecPacked(f, a', r)
  }

  /** The PB_HTYPE_REPEATED case of decode_static_field. */
  function DecRepeated(f: Field, a: Filled, wireType: nat, s: bytes): (p: Parsed<Filled>)
    ensures p.Ok? ==> |p.rest| <= |s| && |p.value.items| == |a.items|
    decreases f, 3
  {
    if wireType == WT_STRING && f.Packable() then
      match Window(s)
      case Fail => Fail
      case Ok(w, r) =>
        match DecPacked(f, a, w)
        case None => Fail
        case Some(a') => Ok(a', r)
    else DecItem(f, a, s)
  }

  /** decode_static_field: the slot and, for fixed-count arrays, the running count kept outside the struct. */
  function DecSlot(f: Field, s: Slot, fixedCount: nat, wireType: nat, input: bytes): (p: Parsed<(Slot, nat)>)
    ensures p.Ok? ==> |p.rest| <= |input|
    decreases f, 4
  {
    match s
    case Single(v) => (
      match DecValue(f, v, input)
      case Fail => Fail
      case Ok(v', r) => Ok((Single(v'), fixedCount), r))
    case Has(_, v) => (
      match DecValue(f, v, input)
      case Fail => Fail
      case Ok(v', r) => Ok((Has(true, v'), fixedCount), r))
    case Counted(count, items) => (
      match DecRepeated(f, Filled(items, count), wireType, input)
      case Fail => Fail
      case Ok(a, r) => Ok((Counted(a.count, a.items), fixedCount), r))
    case Array(items) => (
      if !f.FixedCount() then Fail
      else
        match DecRepeated(f, Filled(items, fixedCount), wireType, input)
        case Fail => Fail
        case Ok(a, r) => Ok((Array(a.items), a.count), r))
    case Union(which, v) => (
      match DecValue(f, if which == f.tag then v else FreshMember(f), input)
      case Fail => Fail
      case Ok(v', r) => Ok((Union(f.tag, v'), fixedCount), r))
    case Shared => Fail
  }

  // ---------------------------------------------------------------- the message loop

  /** The local state of pb_decode_noinit: the struct, `fields_seen` as a set, and the fixed-count run. */
  datatype State = State(slots: seq<Slot>, seen: set<nat>, fixedField: Option<nat>, fixedCount: nat)

  /** One turn of the loop: an error, the zero tag, or a field consumed. */
  datatype Turn = Error | Stop(rest: bytes) | Next(st: State, rest: bytes)

  /** Number of required entries before position `i`: the iterator's required_field_index there. */
  function RequiredBefore(fields: seq<Field>, i: nat): (n: nat)
    requires i <= |fields|
    ensures n <= i
  {
    if i == 0 then 0 else RequiredBefore(fields, i - 1) + (if fields[i - 1].htype == Required then 1 else 0)
  }

  /** Whether the current fixed-count run, if any, has received all its items. */
  predicate FixedDone(fields: seq<Field>, st: State) {
    st.fixedField.Some? ==> st.fixedField.value < |fields| && st.fixedCount == fields[st.fixedField.value].arraySize
  }

  /** Entering (or staying in) the fixed-count run of entry `i`. */
  function EnterFixed(fields: seq<Field>, st: State, i: nat): Option<State>
    requires i < |fields|
  {
    if !fields[i].FixedCount() || st.fixedField == Some(i) then Some(st)
    else if FixedDone(fields, st) then Some(st.(fixedField := Some(i), fixedCount := 0))
    else None
  }

  /** Setting the bit of a required field. */
  function MarkSeen(fields: seq<Field>, st: State, i: nat): State
    requires i < |fields|
  {
    var r := RequiredBefore(fields, i);
    if fields[i].htype == Required && r < PB_MAX_REQUIRED_FIELDS then st.(seen := st.seen + {r}) else st
  }

  /** A field whose tag is that of entry `i`. */
  function KnownField(fields: seq<Field>, st: State, i: nat, wireType: nat, s: bytes): (t: Turn)
    requires i < |fields|
    ensures t.Next? ==> |t.rest| <= |s|
    ensures !t.Stop?
    decreases fields, 0
  {
    match EnterFixed(fields, st, i)
    case None => Error
    case Some(st1) =>
      var st2 := MarkSeen(fields, st1, i);
      var h := SlotOf(fields, i);
      if h >= |st2.slots| then Error
      else
        match DecSlot(fields[i], st2.slots[h], st2.fixedCount, wireType, s)
        case Fail => Error
        case Ok((slot, n), r) => Next(st2.(slots := st2.slots[h := slot], fixedCount := n), r)
  }

  /** A field with no entry in the descriptor. */
  function UnknownField(st: State, wireType: nat, s: bytes): (t: Turn)
    ensures t.Next? ==> |t.rest| < |s|
    ensures !t.Stop?
  {
    match Skip(wireType, s)
    case Fail => Error
    case Ok(_, r) => Next(st, r)
  }

  /**
   Tag 0 against an empty descriptor: the search stops at the array's terminator, which reads as a
   required bool with no place in the struct.
   */
  function TerminatorField(st: State, s: bytes): (t: Turn)
    ensures t.Next? ==> |t.rest| < |s|
    ensures !t.Stop?
  {
    match Dec32(s)
    case Fail => Error
    case Ok(_, r) => Next(st.(seen := st.seen + {0}), r)
  }

  /** One turn of the loop of pb_decode_noinit on a non-empty window. */
  function Step(fields: seq<Field>, st: State, s: bytes): (t: Turn)
    ensures t.Next? ==> |t.rest| < |s|
    ensures t.Stop? ==> |t.rest| < |s|
    decreases fields, 1
  {
    match Dec32(s)
    case Fail => Error
    case Ok(key, r) =>
      if key == 0 then Stop(r)
      else
        match FindTag(fields, key / 8)
        case Some(i) => KnownField(fields, st, i, key % 8, r)
        case None => if fields == [] && key / 8 == 0 then TerminatorField(st, r) else UnknownField(st, key % 8, r)
  }

  /** The end of the loop: a failed turn, or the state, what is left, and whether a zero tag ended it. */
  datatype Outcome = Failed | Done(st: State, rest: bytes, zero: bool)

  function Run(fields: seq<Field>, st: State, s: bytes): (o: Outcome)
    ensures o.Done? ==> |o.rest| <= |s|
    ensures o.Done? && !o.zero ==> o.rest == []
    decreases fields, 2, |s|
  {
    if s == [] then Done(st, [], false)
    else
      match Step(fields, st, s)
      case Error => Failed
      case Stop(r) => Done(st, r, true)
      case Next(st', r) => Run(fields, st', r)
  }

  /** The required fields that are tracked: the first 64. */
  function Tracked(fields: seq<Field>): nat {
    var n := RequiredBefore(fields, |fields|);
    if n > PB_MAX_REQUIRED_FIELDS then PB_MAX_REQUIRED_FIELDS else n
  }

  predicate AllSeen(fields: seq<Field>, seen: set<nat>) {
    forall r: nat | r < Tracked(fields) :: r in seen
  }

  /** The checks after the loop. */
  predicate Complete(fields: seq<Field>, st: State) {
    FixedDone(fields, st) && AllSeen(fields, st.seen)
  }

  function Start(slots: seq<Slot>): State {
    State(slots, {}, None, 0)
  }

  /** pb_decode_noinit. */
  function DecodeNoinit(fields: seq<Field>, slots: seq<Slot>, s: bytes): (p: Parsed<seq<Slot>>)
    ensures p.Ok? ==> |p.rest| <= |s|
    decreases fields, 3
  {
    match Run(fields, Start(slots), s)
    case Failed => Fail
    case Done(st, rest, _) => if Complete(fields, st) then Ok(st.slots, rest) else Fail
  }

  /** pb_decode. */
  function Decode(fields: seq<Field>, slots: seq<Slot>, s: bytes): Parsed<seq<Slot>> {
    DecodeNoinit(fields, Defaults(fields, slots), s)
  }
}
