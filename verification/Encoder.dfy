/** pb_encode: the imperative encoder over an output stream, against the functions of Serialize. */
module Encoder {
  import opened Bits
  import opened Descriptor
  import opened Varints
  import opened Serialize
  import opened FieldIterator
  import opened OutputStream

  // ---------------------------------------------------------------- default values

  /** pb_check_proto3_default_value. */
  method CheckProto3Default(f: Field, s: Slot) returns (isDefault: bool)
    requires ValidField(f)
    ensures isDefault == IsDefault(f, s)
    decreases f, 1
  {
    if f.htype == Required {
      return false;
    } else if f.htype == Repeated {
      return f.sizeOffset != 0 && s.Counted? && s.count == 0;
    } else if f.htype == Oneof {
      return s.Union? && s.which == 0;
    } else if f.sizeOffset != 0 {
      return s.Has? && !s.has;
    }
    if !s.Single? { return false; }
    match s.v
    case BytesV(size, _) => isDefault := size == 0;
    case StringV(buf) => isDefault := |buf| > 0 && buf[0] == 0;
    case FixedBytesV(_) => isDefault := f.dataSize == 0;
    case MessageV(slots) => isDefault := CheckSubmessageDefault(f.sub, slots);
    case BoolV(b) => isDefault := !b;
    case IntV(i) => isDefault := i == 0;
  }

  /** Its loop over the fields of a submessage. */
  method CheckSubmessageDefault(fields: seq<Field>, slots: seq<Slot>) returns (isDefault: bool)
    requires ValidFields(fields)
    ensures isDefault == (|slots| == |fields| && forall h | 0 <= h < |fields| :: IsDefault(fields[h], slots[SlotOf(fields, h)]))
    decreases fields, 0
  {
    if |slots| != |fields| { return false; }
    var iter := new FieldIter(fields, 0);
    if |fields| == 0 { return true; }
    var more := true;
    while more
      invariant iter.Valid() && iter.start == fields && iter.pos < |fields|
      invariant forall h | 0 <= h < if more then iter.pos else |fields| :: IsDefault(fields[h], slots[SlotOf(fields, h)])
      decreases if more then |fields| - iter.pos else 0
    {
      assert ValidField(fields[iter.pos]);
      var this_ := CheckProto3Default(fields[iter.pos], slots[SlotOf(fields, iter.pos)]);
      if !this_ { return false; }
      more := iter.Next();
    }
    return true;
  }

  // ---------------------------------------------------------------- items

  lemma {:induction false} SerItemsSplit(f: Field, items: seq<Value>, i: nat)
    requires i < |items|
    ensures SerItems(f, items[i..]) == SerValue(f, items[i]) + SerItems(f, items[i + 1..])
    ensures SerKeyedItems(f, items[i..])
         == Key(f.tag, WireType(f)) + SerValue(f, items[i]) + SerKeyedItems(f, items[i + 1..])
  {
    assert items[i..][1..] == items[i + 1..];
  }

  lemma NoItems(f: Field, items: seq<Value>)
    ensures SerItems(f, items[|items|..]) == [] && SerKeyedItems(f, items[|items|..]) == []
  {
  }

  /** The size shortcut for packed fixed-width arrays. */
  lemma {:induction false} FixedWidth(f: Field, items: seq<Value>)
    requires forall k | 0 <= k < |items| :: ShapedValue(f, items[k])
    ensures f.ltype == Fixed32 ==> |SerItems(f, items)| == 4 * |items|
    ensures f.ltype == Fixed64 ==> |SerItems(f, items)| == 8 * |items|
  {
    if items != [] { FixedWidth(f, items[1..]); }
  }

  /** pb_enc_string's strnlen loop. */
  method StringLength(buf: bytes) returns (size: nat)
    ensures size == |CString(buf)|
  {
    size := 0;
    while size < |buf| && buf[size] != 0
      invariant size <= |buf| && size + |CString(buf[size..])| == |CString(buf)|
    {
      assert buf[size..][1..] == buf[size + 1..];
      size := size + 1;
    }
  }

  /** What an encoder method does to the stream: all of `x`, if `can` and if there is room for it. */
  ghost predicate Encodes(stream: OStream, ok: bool, can: bool, room: bool, x: bytes, before: bytes)
    reads stream, stream.buf
  {
    stream.Valid() && ok == (can && room) && (ok ==> stream.Put(before, x))
  }

  /** pb_enc_varint, pb_enc_uvarint, pb_enc_svarint. */
  method EncInt(stream: OStream, f: Field, v: Value) returns (ok: bool)
    requires stream.Valid() && f.ltype in {Varint, UVarint, SVarint} && ShapedValue(f, v)
    requires |stream.out| + |SerValue(f, v)| < U64
    modifies stream, stream.buf
    ensures Encodes(stream, ok, EncodableValue(f, v),
                    old(stream.Room(|SerValue(f, v)|)), SerValue(f, v), old(stream.out))
  {
    if f.dataSize !in {1, 2, 4, 8} { return false; }
    if f.ltype == SVarint {
      ok := stream.EncodeSvarint(v.i);
    } else {
      ok := stream.EncodeVarint(AsU64(v.i));
    }
  }

  /** The encoder the LTYPE selects from PB_ENCODERS. */
  method EncodeValue(stream: OStream, f: Field, v: Value) returns (ok: bool)
    requires stream.Valid() && ValidField(f) && ShapedValue(f, v)
    requires |stream.out| + |SerValue(f, v)| < U64
    modifies stream, stream.buf
    ensures Encodes(stream, ok, EncodableValue(f, v),
                    old(stream.Room(|SerValue(f, v)|)), SerValue(f, v), old(stream.out))
    decreases f, 1
  {
    if f.ltype == Submessage {
      ok := EncodeSubmessage(stream, f.sub, v.slots);
    } else if f.ltype in {Varint, UVarint, SVarint} {
      ok := EncInt(stream, f, v);
    } else if f.ltype in {Bytes, String, FixedLengthBytes} {
      ok := EncString(stream, f, v);
    } else if f.ltype == Bool {
      ok := stream.EncodeVarint(if v.b then 1 else 0);
    } else {
      ok := EncFixed(stream, f, v, if f.ltype == Fixed32 then 4 else 8);
    }
  }

  /** pb_enc_fixed32, pb_enc_fixed64. */
  method EncFixed(stream: OStream, f: Field, v: Value, n: nat) returns (ok: bool)
    requires stream.Valid() && ShapedValue(f, v) && |stream.out| + n < U64
    requires (f.ltype == Fixed32 && n == 4) || (f.ltype == Fixed64 && n == 8)
    modifies stream, stream.buf
    ensures |SerValue(f, v)| == n
    ensures Encodes(stream, ok, EncodableValue(f, v), old(stream.Room(n)), SerValue(f, v), old(stream.out))
  {
    hide LittleEndian;
    assert SerValue(f, v) == LittleEndian(n, v.i);
    ok := stream.EncodeFixed(n, v.i);
  }

  /** pb_enc_bytes, pb_enc_string, pb_enc_fixed_length_bytes. */
  method EncString(stream: OStream, f: Field, v: Value) returns (ok: bool)
    requires stream.Valid() && f.ltype in {Bytes, String, FixedLengthBytes} && ShapedValue(f, v)
    requires |stream.out| + |SerValue(f, v)| < U64
    modifies stream, stream.buf
    ensures Encodes(stream, ok, EncodableValue(f, v),
                    old(stream.Room(|SerValue(f, v)|)), SerValue(f, v), old(stream.out))
  {
    if f.ltype == Bytes {
      if v.size + BYTES_HEADER > f.dataSize { return false; }
      ok := stream.EncodeString(v.buf[..v.size]);
    } else if f.ltype == String {
      var size := StringLength(v.buf);
      ok := stream.EncodeString(v.buf[..size]);
    } else {
      ok := stream.EncodeString(v.buf);
    }
  }

  /**
   pb_encode_submessage: one pass to find the size, the size, and a second pass into a substream of
   exactly that size.  That the second pass writes another number of bytes cannot happen.
   */
  method EncodeSubmessage(stream: OStream, fields: seq<Field>, slots: seq<Slot>) returns (ok: bool)
    requires stream.Valid() && ValidFields(fields) && Shaped(fields, slots)
    requires |stream.out| + |Prefixed(Ser(fields, slots))| < U64
    modifies stream, stream.buf
    ensures Encodes(stream, ok, Encodable(fields, slots), old(stream.Room(|Prefixed(Ser(fields, slots))|)),
                    Prefixed(Ser(fields, slots)), old(stream.out))
    decreases fields, 3
  {
    var substream := new OStream.Sizing();
    ok := EncodeMessage(substream, fields, slots);
    if !ok { return; }
    var size := substream.bytesWritten;
    ok := stream.EncodeVarint(size);
    if !ok { return; }
    if stream.sizing {
      ok := stream.Write([], size, Ser(fields, slots));
      return;
    }
    ok := EncodeSecondPass(stream, fields, slots, size);
  }

  /** The writing pass, into a substream of the size found. */
  method EncodeSecondPass(stream: OStream, fields: seq<Field>, slots: seq<Slot>, size: nat) returns (ok: bool)
    requires stream.Valid() && !stream.sizing && ValidFields(fields) && Shaped(fields, slots)
    requires size == |Ser(fields, slots)| && |stream.out| + size < U64 && Encodable(fields, slots)
    modifies stream, stream.buf
    ensures Encodes(stream, ok, true, old(stream.Room(size)), Ser(fields, slots), old(stream.out))
    decreases fields, 2
  {
    if stream.bytesWritten + size > stream.maxSize { return false; }
    var substream := new OStream.Substream(stream, size);
    var status := EncodeMessage(substream, fields, slots);
    stream.Resume(substream);
    if substream.bytesWritten != size { assert false; }
    ok := status;
  }

  // ---------------------------------------------------------------- fields

  /** A key and one item behind it. */
  method EncodeKeyed(stream: OStream, f: Field, v: Value) returns (ok: bool)
    requires stream.Valid() && ValidField(f) && ShapedValue(f, v)
    requires |stream.out| + |Key(f.tag, WireType(f)) + SerValue(f, v)| < U64
    modifies stream, stream.buf
    ensures Encodes(stream, ok, EncodableValue(f, v), old(stream.Room(|Key(f.tag, WireType(f)) + SerValue(f, v)|)),
                    Key(f.tag, WireType(f)) + SerValue(f, v), old(stream.out))
    decreases f, 2
  {
    ok := stream.EncodeTag(WireType(f), f.tag);
    if !ok { return; }
    ok := EncodeValue(stream, f, v);
  }

  predicate AllEncodable(f: Field, items: seq<Value>)
    decreases f, 1
  {
    forall k | 0 <= k < |items| :: EncodableValue(f, items[k])
  }

  predicate AllShaped(f: Field, items: seq<Value>) {
    forall k | 0 <= k < |items| :: ShapedValue(f, items[k])
  }

  /** The loop over the items of a packed array. */
  method EncodeItems(stream: OStream, f: Field, items: seq<Value>) returns (ok: bool)
    requires stream.Valid() && ValidField(f) && AllShaped(f, items)
    requires |stream.out| + |SerItems(f, items)| < U64
    modifies stream, stream.buf
    ensures Encodes(stream, ok, AllEncodable(f, items),
                    old(stream.Room(|SerItems(f, items)|)), SerItems(f, items), old(stream.out))
    decreases f, 3
  {
    hide SerItems, SerKeyedItems, SerValue, EncodableValue;
    ghost var before, x: bytes := stream.out, [];
    ok := true;
    var i := 0;
    assert items[0..] == items;
    while i < |items|
      invariant 0 <= i <= |items| && stream.Put(before, x)
      invariant SerItems(f, items) == x + SerItems(f, items[i..])
      invariant forall k | 0 <= k < i :: EncodableValue(f, items[k])
    {
      SerItemsSplit(f, items, i);
      ghost var one := SerValue(f, items[i]);
      assert SerItems(f, items) == x + one + SerItems(f, items[i + 1..]);
      ok := EncodeValue(stream, f, items[i]);
      if !ok { return; }
      assert before + x + one == before + (x + one);
      x := x + one;
      i := i + 1;
    }
    NoItems(f, items);
    assert x == SerItems(f, items);
  }

  /** The loop over the items of an unpacked array. */
  method EncodeKeyedItems(stream: OStream, f: Field, items: seq<Value>) returns (ok: bool)
    requires stream.Valid() && ValidField(f) && AllShaped(f, items)
    requires |stream.out| + |SerKeyedItems(f, items)| < U64
    modifies stream, stream.buf
    ensures Encodes(stream, ok, AllEncodable(f, items),
                    old(stream.Room(|SerKeyedItems(f, items)|)), SerKeyedItems(f, items), old(stream.out))
    decreases f, 3
  {
    hide SerItems, SerKeyedItems, SerValue, EncodableValue, Key;
    ghost var before, x: bytes := stream.out, [];
    ok := true;
    var i := 0;
    assert items[0..] == items;
    while i < |items|
      invariant 0 <= i <= |items| && stream.Put(before, x)
      invariant SerKeyedItems(f, items) == x + SerKeyedItems(f, items[i..])
      invariant forall k | 0 <= k < i :: EncodableValue(f, items[k])
    {
      SerItemsSplit(f, items, i);
      ghost var one := Key(f.tag, WireType(f)) + SerValue(f, items[i]);
      assert SerKeyedItems(f, items) == x + one + SerKeyedItems(f, items[i + 1..]);
      ok := EncodeKeyed(stream, f, items[i]);
      if !ok { return; }
      assert before + x + one == before + (x + one);
      x := x + one;
      i := i + 1;
    }
    NoItems(f, items);
    assert x == SerKeyedItems(f, items);
  }

  /** The total size of a packed array: by multiplication for fixed widths, by a sizing pass otherwise. */
  method PackedSize(f: Field, items: seq<Value>) returns (ok: bool, size: nat)
    requires ValidField(f) && f.Packable() && AllShaped(f, items) && |SerItems(f, items)| < U64
    ensures ok == AllEncodable(f, items)
    ensures ok ==> size == |SerItems(f, items)|
    decreases f, 4
  {
    FixedWidth(f, items);
    if f.ltype == Fixed32 { return true, 4 * |items|; }
    if f.ltype == Fixed64 { return true, 8 * |items|; }
    var sizestream := new OStream.Sizing();
    ok := EncodeItems(sizestream, f, items);
    size := sizestream.bytesWritten;
  }

  /** encode_array on the items that are to be written. */
  method EncodeArray(stream: OStream, f: Field, items: seq<Value>) returns (ok: bool)
    requires stream.Valid() && ValidField(f) && AllShaped(f, items)
    requires |stream.out| + |SerArray(f, items)| < U64
    modifies stream, stream.buf
    ensures Encodes(stream, ok, AllEncodable(f, items),
                    old(stream.Room(|SerArray(f, items)|)), SerArray(f, items), old(stream.out))
    decreases f, 5
  {
    if |items| == 0 {
      return true;
    }
    if !f.Packable() {
      ok := EncodeKeyedItems(stream, f, items);
      return;
    }
    ok := stream.EncodeTag(WT_STRING, f.tag);
    if !ok { return; }
    var size;
    ok, size := PackedSize(f, items);
    if !ok { return; }
    ok := EncodePackedBody(stream, f, items, size);
  }

  /** The length and the items of a packed array; a sizing stream is only told how many bytes they take. */
  method EncodePackedBody(stream: OStream, f: Field, items: seq<Value>, size: nat) returns (ok: bool)
    requires stream.Valid() && ValidField(f) && AllShaped(f, items) && AllEncodable(f, items)
    requires size == |SerItems(f, items)| && |stream.out| + |Prefixed(SerItems(f, items))| < U64
    modifies stream, stream.buf
    ensures Encodes(stream, ok, true,
                    old(stream.Room(|Prefixed(SerItems(f, items))|)), Prefixed(SerItems(f, items)), old(stream.out))
    decreases f, 4
  {
    ok := stream.EncodeVarint(size);
    if !ok { return; }
    if stream.sizing {
      ok := stream.Write([], size, SerItems(f, items));
      return;
    }
    ok := EncodeItems(stream, f, items);
  }

  /** encode_basic_field. */
  method EncodeField(stream: OStream, f: Field, slot: Slot) returns (ok: bool)
    requires stream.Valid() && ValidField(f) && SlotFits(f, slot)
    requires |stream.out| + |SerSlot(f, slot)| < U64
    modifies stream, stream.buf
    ensures Encodes(stream, ok, EncodableSlot(f, slot),
                    old(stream.Room(|SerSlot(f, slot)|)), SerSlot(f, slot), old(stream.out))
    decreases f, 6
  {
    if f.htype == Repeated {
      var count := if f.sizeOffset != 0 then slot.count else f.arraySize;
      if count > f.arraySize { return false; }
      assert Live(slot) == slot.items[..count];
      ok := EncodeArray(stream, f, slot.items[..count]);
      return;
    }
    var present := true;
    if f.htype == Oneof {
      present := slot.which == f.tag;
    } else if f.htype == Optional && f.sizeOffset != 0 {
      present := slot.has;
    } else if f.htype == Optional {
      var isDefault := CheckProto3Default(f, slot);
      present := !isDefault;
    }
    if present {
      ok := EncodeKeyed(stream, f, slot.v);
    } else {
      ok := true;
    }
  }

  // ---------------------------------------------------------------- messages

  /** pb_encode. */
  method EncodeMessage(stream: OStream, fields: seq<Field>, slots: seq<Slot>) returns (ok: bool)
    requires stream.Valid() && ValidFields(fields) && Shaped(fields, slots)
    requires |stream.out| + |Ser(fields, slots)| < U64
    modifies stream, stream.buf
    ensures Encodes(stream, ok, Encodable(fields, slots),
                    old(stream.Room(|Ser(fields, slots)|)), Ser(fields, slots), old(stream.out))
    decreases fields, 1
  {
    hide Ser, Encodable, Shaped, ValidFields, Reached;
    ghost var before, x: bytes, i := stream.out, [], 0;
    NothingReached(stream, fields, slots);
    var iter := new FieldIter(fields, 0);
    if |fields| == 0 {
      AllReached(stream, fields, slots, before, x);
      return true;
    }
    ok := true;
    var more := true;
    while more
      invariant iter.Valid() && iter.start == fields && iter.pos < |fields|
      invariant i <= |fields| && i == if more then iter.pos else |fields|
      invariant Reached(stream, fields, slots, i, before, x)
      decreases |fields| - i
    {
      ok, x := EncodeEntry(stream, fields, slots, iter.pos, before, x);
      if !ok { return; }
      more := iter.Next();
      i := i + 1;
    }
    AllReached(stream, fields, slots, before, x);
  }

  lemma NothingReached(stream: OStream, fields: seq<Field>, slots: seq<Slot>)
    requires stream.Valid() && Shaped(fields, slots)
    ensures Reached(stream, fields, slots, 0, stream.out, [])
  {
    hide SerFrom, ShapedSlot;
    assert stream.out + [] == stream.out;
  }

  lemma AllReached(stream: OStream, fields: seq<Field>, slots: seq<Slot>, before: bytes, x: bytes)
    requires Reached(stream, fields, slots, |fields|, before, x)
    ensures stream.Put(before, Ser(fields, slots)) && Encodable(fields, slots)
  {
    hide EncodableSlot;
    EndOfFields(fields, slots);
    assert x + [] == x;
  }

  /** The entries before `i` have been encoded, as `x`. */
  ghost predicate Reached(stream: OStream, fields: seq<Field>, slots: seq<Slot>, i: nat, before: bytes, x: bytes)
    reads stream, stream.buf
  {
    && i <= |fields| == |slots|
    && stream.Put(before, x) && Ser(fields, slots) == x + SerFrom(fields, slots, i)
    && forall k | 0 <= k < i :: EncodableSlot(fields[k], slots[SlotOf(fields, k)])
  }

  /** One turn of its loop. */
  method EncodeEntry(stream: OStream, fields: seq<Field>, slots: seq<Slot>, i: nat, ghost before: bytes, ghost x: bytes)
    returns (ok: bool, ghost x': bytes)
    requires i < |fields| && Reached(stream, fields, slots, i, before, x)
    requires ValidFields(fields) && Shaped(fields, slots) && |before| + |Ser(fields, slots)| < U64
    modifies stream, stream.buf
    ensures stream.Valid()
    ensures ok ==> Reached(stream, fields, slots, i + 1, before, x')
    ensures !ok ==> !Encodable(fields, slots) || !(stream.sizing || |before| + |Ser(fields, slots)| <= stream.maxSize)
    decreases fields, 0
  {
    hide Shaped, ValidFields, Ser, SerFrom, SerSlot, EncodableSlot;
    ghost var one := SerSlot(fields[i], slots[SlotOf(fields, i)]);
    ShapedFits(fields, slots, i);
    OneField(fields, slots, i, Ser(fields, slots), x);
    ok := EncodeField(stream, fields[i], slots[SlotOf(fields, i)]);
    assert before + x + one == before + (x + one);
    assert Encodable(fields, slots) ==> EncodableSlot(fields[i], slots[SlotOf(fields, i)]);
    x' := x + one;
  }

  lemma EndOfFields(fields: seq<Field>, slots: seq<Slot>)
    requires |fields| == |slots|
    ensures SerFrom(fields, slots, |fields|) == []
  {
  }

  /** Moving the encoding of entry `i` from what is to come to what is done. */
  lemma OneField(fields: seq<Field>, slots: seq<Slot>, i: nat, whole: bytes, x: bytes)
    requires i < |fields| == |slots| && whole == x + SerFrom(fields, slots, i)
    ensures var one := SerSlot(fields[i], slots[SlotOf(fields, i)]);
            whole == x + one + SerFrom(fields, slots, i + 1)
            && |whole| == |x| + |one| + |SerFrom(fields, slots, i + 1)|
  {
    hide SerSlot;
    assert SerFrom(fields, slots, i) == SerSlot(fields[i], slots[SlotOf(fields, i)]) + SerFrom(fields, slots, i + 1);
  }

  /** pb_get_encoded_size: the sizing pass counts exactly the bytes the writing pass puts out. */
  method GetEncodedSize(fields: seq<Field>, slots: seq<Slot>) returns (ok: bool, size: nat)
    requires ValidFields(fields) && Shaped(fields, slots) && |Ser(fields, slots)| < U64
    ensures ok == Encodable(fields, slots)
    ensures ok ==> size == |Ser(fields, slots)|
  {
    var stream := new OStream.Sizing();
    ok := EncodeMessage(stream, fields, slots);
    size := stream.bytesWritten;
  }

  /** pb_encode_nullterminated. */
  method EncodeNullTerminated(stream: OStream, fields: seq<Field>, slots: seq<Slot>) returns (ok: bool)
    requires stream.Valid() && ValidFields(fields) && Shaped(fields, slots)
    requires |stream.out| + |Ser(fields, slots)| + 1 < U64
    modifies stream, stream.buf
    ensures Encodes(stream, ok, Encodable(fields, slots),
                    old(stream.Room(|Ser(fields, slots) + [0]|)), Ser(fields, slots) + [0], old(stream.out))
  {
    ok := EncodeMessage(stream, fields, slots);
    if !ok { return; }
    ok := stream.WriteBytes([0]);
  }
}
