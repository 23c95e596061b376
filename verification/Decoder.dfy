/** pb_decode: the imperative decoder over an input stream, against the functions of Deserialize. */
module Decoder {
  import opened Bits
  import opened Descriptor
  import opened Options
  import opened Varints
  import opened Serialize
  import opened Deserialize
  import opened Freshness
  import opened Shapes
  import opened FieldIterator
  import opened RequiredFields
  import opened InputStream
  import opened Framing

  // ---------------------------------------------------------------- item decoders

  /** pb_dec_varint, pb_dec_uvarint, pb_dec_svarint. */
  method DecInt(stream: IStream, f: Field, was: Value) returns (ok: bool, v: Value)
    requires stream.Valid() && f.ltype in {Varint, UVarint, SVarint}
    modifies stream
    ensures stream.Took(ok, DecValue(f, was, old(stream.Left())), old(stream.End()))
    ensures ok ==> v == DecValue(f, was, old(stream.Left())).value
  {
    v := was;
    var value;
    ok, value := stream.DecodeVarint();
    if !ok { return; }
    assert value < U64;
    var stored :=
      if f.ltype == Varint then StoreVarint(f.dataSize, value)
      else if f.ltype == UVarint then StoreUVarint(f.dataSize, value)
      else StoreSVarint(f.dataSize, value);
    if stored.None? { return false, v; }
    v := IntV(stored.value);
  }

  /** pb_dec_fixed32 and pb_dec_fixed64. */
  method DecFixed(stream: IStream, f: Field, was: Value) returns (ok: bool, v: Value)
    requires stream.Valid() && f.ltype in {Fixed32, Fixed64}
    modifies stream
    ensures stream.Took(ok, DecValue(f, was, old(stream.Left())), old(stream.End()))
    ensures ok ==> v == DecValue(f, was, old(stream.Left())).value
  {
    v := was;
    var n := if f.ltype == Fixed32 then 4 else 8;
    var cells := new byte[n];
    ok := stream.Read(cells, n);
    if ok {
      assert cells[..] == cells[..n];
      v := IntV(FromLittleEndian(cells[..]));
    }
  }

  /** pb_dec_bytes. */
  method DecBytes(stream: IStream, f: Field, was: Value) returns (ok: bool, v: Value)
    requires stream.Valid() && f.ltype == Bytes && was.BytesV?
    modifies stream
    ensures stream.Took(ok, DecValue(f, was, old(stream.Left())), old(stream.End()))
    ensures ok ==> v == DecValue(f, was, old(stream.Left())).value
  {
    v := was;
    var size, eof;
    ok, size, eof := stream.DecodeVarint32Eof();
    if !ok { return; }
    if size + BYTES_HEADER > f.dataSize { return false, v; }
    var cells := new byte[size];
    ok := stream.Read(cells, size);
    if ok {
      assert cells[..] == cells[..size];
      v := BytesV(size, Overwrite(was.buf, cells[..]));
    }
  }

  /** pb_dec_string. */
  method DecString(stream: IStream, f: Field, was: Value) returns (ok: bool, v: Value)
    requires stream.Valid() && ValidField(f) && f.ltype == String && was.StringV?
    modifies stream
    ensures stream.Took(ok, DecValue(f, was, old(stream.Left())), old(stream.End()))
    ensures ok ==> v == DecValue(f, was, old(stream.Left())).value
  {
    hide Dec32;
    v := was;
    var size, eof;
    ok, size, eof := stream.DecodeVarint32Eof();
    if !ok { return; }
    // Space for the terminator, in 32-bit arithmetic.
    var allocSize := (size + 1) % U32;
    if allocSize < size { return false, v; }
    if allocSize > f.dataSize { return false, v; }
    var cells := new byte[size];
    ok := stream.Read(cells, size);
    if ok {
      assert cells[..] == cells[..size];
      v := StringV(Overwrite(was.buf, cells[..] + [0]));
    }
  }

  /** pb_dec_fixed_length_bytes. */
  method DecFixedLengthBytes(stream: IStream, f: Field, was: Value) returns (ok: bool, v: Value)
    requires stream.Valid() && f.ltype == FixedLengthBytes
    modifies stream
    ensures stream.Took(ok, DecValue(f, was, old(stream.Left())), old(stream.End()))
    ensures ok ==> v == DecValue(f, was, old(stream.Left())).value
  {
    v := was;
    var size, eof;
    ok, size, eof := stream.DecodeVarint32Eof();
    if !ok { return; }
    if size == 0 { return true, FixedBytesV(Zeros(f.dataSize)); }
    if size != f.dataSize { return false, v; }
    var cells := new byte[size];
    ok := stream.Read(cells, size);
    if ok {
      assert cells[..] == cells[..size];
      v := FixedBytesV(cells[..]);
    }
  }

  /** The decoder the LTYPE selects from PB_DECODERS. */
  method DecodeValue(stream: IStream, f: Field, was: Value) returns (ok: bool, v: Value)
    requires stream.Valid() && ValidField(f) && ShapedValue(f, was)
    modifies stream
    ensures stream.Took(ok, DecValue(f, was, old(stream.Left())), old(stream.End()))
    ensures ok ==> v == DecValue(f, was, old(stream.Left())).value
    decreases f, 1
  {
    match f.ltype
    case Bool =>
      var value, eof;
      ok, value, eof := stream.DecodeVarint32Eof();
      v := BoolV(value != 0);
    case Varint => ok, v := DecInt(stream, f, was);
    case UVarint => ok, v := DecInt(stream, f, was);
    case SVarint => ok, v := DecInt(stream, f, was);
    case Fixed32 => ok, v := DecFixed(stream, f, was);
    case Fixed64 => ok, v := DecFixed(stream, f, was);
    case Bytes => ok, v := DecBytes(stream, f, was);
    case String => ok, v := DecString(stream, f, was);
    case FixedLengthBytes => ok, v := DecFixedLengthBytes(stream, f, was);
    case Submessage => ok, v := DecSubmessage(stream, f, was);
  }

  /** pb_dec_submessage: new array entries are initialised, other submessages were with their parent. */
  method DecSubmessage(stream: IStream, f: Field, was: Value) returns (ok: bool, v: Value)
    requires stream.Valid() && ValidField(f) && f.ltype == Submessage && ShapedValue(f, was)
    modifies stream
    ensures stream.Took(ok, DecValue(f, was, old(stream.Left())), old(stream.End()))
    ensures ok ==> v == DecValue(f, was, old(stream.Left())).value
    decreases f, 0
  {
    hide DecValue, DecodeNoinit;
    v := was;
    ghost var s, end := stream.Left(), stream.End();
    var sub;
    ok, sub := stream.MakeSubstream();
    if !ok {
      SubmessageCut(f, was, s);
      return;
    }
    var slots := was.slots;
    if f.htype == Repeated {
      DefaultsAreFresh(f.sub, slots);
      slots := Defaults(f.sub, slots);
    }
    ghost var inner := DecodeNoinit(f.sub, slots, Window(s).value);
    SubmessageDone(f, was, s, inner);
    ok, slots := DecodeInto(sub, f.sub, slots);
    var _ := stream.CloseSubstream(sub);
    if ok {
      ClosedWindow(stream, s, end);
      v := MessageV(slots);
    }
  }

  lemma SubmessageCut(f: Field, was: Value, s: bytes)
    requires f.ltype == Submessage && was.MessageV? && Window(s).Fail?
    ensures DecValue(f, was, s) == Fail
  {
  }

  /** Unfolding the submessage case of the decoder function. */
  lemma SubmessageDone(f: Field, was: Value, s: bytes, inner: Parsed<seq<Slot>>)
    requires f.ltype == Submessage && was.MessageV? && Window(s).Ok?
    requires inner == DecodeNoinit(f.sub, if f.htype == Repeated then Defaults(f.sub, was.slots) else was.slots, Window(s).value)
    ensures DecValue(f, was, s) == if inner.Ok? then Ok(MessageV(inner.value), Window(s).rest) else Fail
  {
  }

  // ---------------------------------------------------------------- fields

  /** The PB_HTYPE_REPEATED case of decode_static_field. */
  method DecodeRepeated(stream: IStream, f: Field, wireType: nat, items: seq<Value>, size: nat)
    returns (ok: bool, items': seq<Value>, size': nat)
    requires stream.Valid() && ValidField(f) && |items| == f.arraySize
    requires forall k | 0 <= k < |items| :: ShapedValue(f, items[k])
    modifies stream
    ensures stream.Took(ok, DecRepeated(f, Filled(items, size), wireType, old(stream.Left())), old(stream.End()))
    ensures ok ==> Filled(items', size') == DecRepeated(f, Filled(items, size), wireType, old(stream.Left())).value
    decreases f, 4
  {
    items', size' := items, size;
    if wireType == WT_STRING && f.Packable() {
      ok, items', size' := DecodePackedBlock(stream, f, items, size);
    } else {
      if size >= f.arraySize { return false, items', size'; }
      var v;
      ok, v := DecodeValue(stream, f, items[size]);
      if ok { items', size' := items[size := v], size + 1; }
    }
  }

  /** A packed array: its length, its items, and nothing left over. */
  method DecodePackedBlock(stream: IStream, f: Field, items: seq<Value>, size: nat)
    returns (ok: bool, items': seq<Value>, size': nat)
    requires stream.Valid() && ValidField(f) && f.Packable() && |items| == f.arraySize
    requires forall k | 0 <= k < |items| :: ShapedValue(f, items[k])
    modifies stream
    ensures stream.Took(ok, DecRepeated(f, Filled(items, size), WT_STRING, old(stream.Left())), old(stream.End()))
    ensures ok ==> Filled(items', size') == DecRepeated(f, Filled(items, size), WT_STRING, old(stream.Left())).value
    decreases f, 3
  {
    items', size' := items, size;
    ghost var s, end := stream.Left(), stream.End();
    var sub;
    ok, sub := stream.MakeSubstream();
    if !ok { return; }
    ok, items', size' := DecodePacked(sub, f, items, size);
    if sub.bytesLeft != 0 { return false, items', size'; }
    var _ := stream.CloseSubstream(sub);
    if ok { ClosedWindow(stream, s, end); }
  }

  /** The loop over a packed array's substream. */
  method DecodePacked(sub: IStream, f: Field, items: seq<Value>, size: nat)
    returns (status: bool, items': seq<Value>, size': nat)
    requires sub.Valid() && ValidField(f) && |items| == f.arraySize
    requires forall k | 0 <= k < |items| :: ShapedValue(f, items[k])
    modifies sub
    ensures sub.Valid() && sub.End() <= old(sub.End())
    ensures (status && sub.bytesLeft == 0) == DecPacked(f, Filled(items, size), old(sub.Left())).Some?
    ensures status && sub.bytesLeft == 0 ==> sub.End() == old(sub.End())
    ensures status && sub.bytesLeft == 0 ==> Filled(items', size') == DecPacked(f, Filled(items, size), old(sub.Left())).value
    decreases f, 2
  {
    status, items', size' := true, items, size;
    ghost var w, end := sub.Left(), sub.End();
    while sub.bytesLeft > 0 && size' < f.arraySize
      invariant sub.Valid() && sub.End() == end && |items'| == f.arraySize
      invariant forall k | 0 <= k < |items'| :: ShapedValue(f, items'[k])
      invariant DecPacked(f, Filled(items, size), w) == DecPacked(f, Filled(items', size'), sub.Left())
      decreases f.arraySize - size'
    {
      ghost var a, left := Filled(items', size'), sub.Left();
      var v;
      status, v := DecodeValue(sub, f, items'[size']);
      if !status { return; }
      ItemShaped(f, a, left);
      items', size' := items'[size' := v], size' + 1;
    }
  }

  /** decode_static_field. */
  method DecodeStaticField(stream: IStream, f: Field, wireType: nat, slot: Slot, fixedCount: nat)
    returns (ok: bool, slot': Slot, fixedCount': nat)
    requires stream.Valid() && ValidField(f) && SlotFits(f, slot)
    modifies stream
    ensures stream.Took(ok, DecSlot(f, slot, fixedCount, wireType, old(stream.Left())), old(stream.End()))
    ensures ok ==> (slot', fixedCount') == DecSlot(f, slot, fixedCount, wireType, old(stream.Left())).value
    decreases f, 5
  {
    slot', fixedCount' := slot, fixedCount;
    var v;
    match f.htype
    case Required =>
      ok, v := DecodeValue(stream, f, slot.v);
      slot' := Single(v);
    case Optional =>
      ok, v := DecodeValue(stream, f, slot.v);
      slot' := if f.sizeOffset != 0 then Has(true, v) else Single(v);
    case Repeated =>
      var items, size;
      if f.sizeOffset != 0 {
        ok, items, size := DecodeRepeated(stream, f, wireType, slot.items, slot.count);
        slot' := Counted(size, items);
      } else {
        ok, items, size := DecodeRepeated(stream, f, wireType, slot.items, fixedCount);
        slot', fixedCount' := Array(items), size;
      }
    case Oneof =>
      FreshMemberIsFresh(f);
      var was := if slot.which == f.tag then slot.v else FreshMember(f);
      ok, v := DecodeValue(stream, f, was);
      slot' := Union(f.tag, v);
  }

  // ---------------------------------------------------------------- messages

  lemma {:induction false} RequiredMonotone(fields: seq<Field>, i: nat, j: nat)
    requires i <= j <= |fields|
    ensures RequiredBefore(fields, i) <= RequiredBefore(fields, j)
    decreases j
  {
    if i < j { RequiredMonotone(fields, i, j - 1); }
  }

  /** No bit is set that no required field owns. */
  predicate OnlyRequired(fields: seq<Field>, seen: set<nat>) {
    forall r | r in seen :: r < RequiredBefore(fields, |fields|) || fields == []
  }

  /** The part of the message loop behind a successful pb_field_iter_find. */
  method DecodeKnown(stream: IStream, iter: FieldIter, wireType: nat, slots: seq<Slot>,
                     words: array<nat>, fixedField: Option<nat>, fixedSize: nat)
    returns (ok: bool, slots': seq<Slot>, fixedField': Option<nat>, fixedSize': nat)
    requires stream.Valid() && iter.Valid() && ValidFields(iter.start) && Shaped(iter.start, slots)
    requires iter.start != [] && Words(words[..])
    requires fixedField.Some? ==> fixedField.value < |iter.start|
    modifies stream, words
    ensures Words(words[..])
    ensures var st := State(slots, old(Recorded(words[..])), fixedField, fixedSize);
            var t := KnownField(iter.start, st, iter.pos, wireType, old(stream.Left()));
            && stream.Valid() && stream.End() <= old(stream.End())
            && ok == t.Next?
            && (ok ==> t == Next(State(slots', Recorded(words[..]), fixedField', fixedSize'), stream.Left())
                       && stream.End() == old(stream.End()))
    ensures fixedField'.Some? ==> fixedField'.value < |iter.start|
    ensures OnlyRequired(iter.start, old(Recorded(words[..]))) ==> OnlyRequired(iter.start, Recorded(words[..]))
    decreases iter.start, 0, 0
  {
    slots', fixedField', fixedSize' := slots, fixedField, fixedSize;
    var fields, i := iter.start, iter.pos;
    var f, h := fields[i], SlotOf(fields, i);
    ok, fixedField', fixedSize' := EnterFixedCount(iter, fixedField, fixedSize, State(slots, Recorded(words[..]), fixedField, fixedSize));
    if !ok { return; }
    RecordRequired(iter, words);
    ShapedFits(fields, slots, i);
    var slot;
    ok, slot, fixedSize' := DecodeStaticField(stream, f, wireType, slots[h], fixedSize');
    slots' := slots[h := slot];
  }

  /** Setting the bit of a required field, if it is one of those tracked. */
  method RecordRequired(iter: FieldIter, words: array<nat>)
    requires iter.Valid() && iter.start != [] && Words(words[..])
    modifies words
    ensures Words(words[..])
    ensures forall st: State | st.seen == old(Recorded(words[..])) ::
              MarkSeen(iter.start, st, iter.pos) == st.(seen := Recorded(words[..]))
    ensures OnlyRequired(iter.start, old(Recorded(words[..]))) ==> OnlyRequired(iter.start, Recorded(words[..]))
  {
    if iter.start[iter.pos].htype == Required && iter.requiredFieldIndex < PB_MAX_REQUIRED_FIELDS {
      Record(words, iter.requiredFieldIndex);
      RequiredMonotone(iter.start, iter.pos + 1, |iter.start|);
    }
  }

  /** Starting the run of a fixed-count array, once the run before it is complete. */
  method EnterFixedCount(iter: FieldIter, fixedField: Option<nat>, fixedSize: nat, ghost st: State)
    returns (ok: bool, fixedField': Option<nat>, fixedSize': nat)
    requires iter.Valid() && iter.start != []
    requires fixedField.Some? ==> fixedField.value < |iter.start|
    requires st.fixedField == fixedField && st.fixedCount == fixedSize
    ensures ok == EnterFixed(iter.start, st, iter.pos).Some?
    ensures ok ==> EnterFixed(iter.start, st, iter.pos) == Some(st.(fixedField := fixedField', fixedCount := fixedSize'))
    ensures fixedField'.Some? ==> fixedField'.value < |iter.start|
  {
    fixedField', fixedSize' := fixedField, fixedSize;
    var f := iter.start[iter.pos];
    OwnSizeWord'(iter);
    if f.htype == Repeated && iter.pSize == iter.pData {
      if fixedField' != Some(iter.pos) {
        if fixedField'.Some? && fixedSize' != iter.start[fixedField'.value].arraySize {
          return false, fixedField', fixedSize';
        }
        fixedField', fixedSize' := Some(iter.pos), 0;
      }
    }
    ok := true;
  }

  /** The test `pSize == pData` finds the repeated entries without a count word. */
  lemma OwnSizeWord'(iter: FieldIter)
    requires iter.Valid() && iter.start != []
    ensures var f := iter.start[iter.pos];
            f.htype == Repeated && iter.pSize == iter.pData <==> f.FixedCount()
  {
    var f := iter.start[iter.pos];
    if f.htype == Repeated {
      assert SlotOf(iter.start, iter.pos) == iter.pos;
      OwnSizeWord(iter.start, iter.dest, iter.pos);
    }
  }

  /** pb_decode_noinit. */
  method DecodeInto(stream: IStream, fields: seq<Field>, dest: seq<Slot>) returns (ok: bool, slots: seq<Slot>)
    requires stream.Valid() && ValidFields(fields) && Shaped(fields, dest)
    modifies stream
    ensures stream.Took(ok, DecodeNoinit(fields, dest, old(stream.Left())), old(stream.End()))
    ensures ok ==> slots == DecodeNoinit(fields, dest, old(stream.Left())).value
    decreases fields, 2
  {
    var words := new nat[2](_ => 0);
    var iter := new FieldIter(fields, 0);
    assert words[..] == [0, 0];
    NothingRecorded();
    var fixedField, fixedSize;
    ghost var st;
    ok, slots, fixedField, fixedSize, st := DecodeLoop(stream, iter, dest, words);
    if ok {
      ok := CheckComplete(iter, words, fixedField, fixedSize, st);
    }
  }

  /** The checks behind the loop. */
  method CheckComplete(iter: FieldIter, words: array<nat>, fixedField: Option<nat>, fixedSize: nat, ghost st: State)
    returns (ok: bool)
    requires iter.Valid() && ValidFields(iter.start) && Words(words[..])
    requires OnlyRequired(iter.start, Recorded(words[..]))
    requires fixedField.Some? ==> fixedField.value < |iter.start|
    requires st == State(st.slots, Recorded(words[..]), fixedField, fixedSize)
    modifies iter
    ensures ok == Complete(iter.start, st)
  {
    if fixedField.Some? && fixedSize != iter.start[fixedField.value].arraySize {
      return false;
    }
    assert FixedDone(iter.start, st);
    assert forall i | 0 <= i < |iter.start| :: ValidField(iter.start[i]) && iter.start[i].tag != 0;
    ok := CheckRequired(iter, words);
  }

  /** The loop of pb_decode_noinit; `st` gathers its local variables. */
  method DecodeLoop(stream: IStream, iter: FieldIter, dest: seq<Slot>, words: array<nat>)
    returns (ok: bool, slots: seq<Slot>, fixedField: Option<nat>, fixedSize: nat, ghost st: State)
    requires stream.Valid() && iter.Valid() && ValidFields(iter.start) && Shaped(iter.start, dest)
    requires Words(words[..]) && Recorded(words[..]) == {}
    modifies stream, iter, words
    ensures Words(words[..]) && iter.Valid() && OnlyRequired(iter.start, Recorded(words[..]))
    ensures fixedField.Some? ==> fixedField.value < |iter.start|
    ensures st == State(slots, Recorded(words[..]), fixedField, fixedSize)
    ensures var o := Run(iter.start, Start(dest), old(stream.Left()));
            && stream.Valid() && stream.End() <= old(stream.End())
            && ok == o.Done?
            && (ok ==> o.st == st && o.rest == stream.Left() && stream.End() == old(stream.End()))
    decreases iter.start, 1
  {
    slots, fixedField, fixedSize := dest, None, 0;
    ghost var whole, end, fields := stream.Left(), stream.End(), iter.start;
    st := Start(dest);
    while stream.bytesLeft > 0
      invariant stream.Valid() && stream.End() == end && iter.Valid() && Words(words[..])
      invariant Shaped(fields, slots) && OnlyRequired(fields, Recorded(words[..]))
      invariant fixedField.Some? ==> fixedField.value < |fields|
      invariant st == State(slots, Recorded(words[..]), fixedField, fixedSize)
      invariant Run(fields, Start(dest), whole) == Run(fields, st, stream.Left())
      decreases stream.bytesLeft
    {
      ghost var s := stream.Left();
      var stop;
      ok, stop, slots, fixedField, fixedSize := DecodeTurn(stream, iter, slots, words, fixedField, fixedSize);
      ghost var before := st;
      st := State(slots, Recorded(words[..]), fixedField, fixedSize);
      if !ok || stop { return; }
      StepShaped(fields, before, s);
    }
    ok := true;
  }

  /** One turn of the loop: read a tag, find its entry, and decode or skip the field. */
  method DecodeTurn(stream: IStream, iter: FieldIter, slots: seq<Slot>, words: array<nat>, fixedField: Option<nat>, fixedSize: nat)
    returns (ok: bool, stop: bool, slots': seq<Slot>, fixedField': Option<nat>, fixedSize': nat)
    requires stream.Valid() && iter.Valid() && ValidFields(iter.start) && Shaped(iter.start, slots)
    requires stream.bytesLeft > 0
    requires Words(words[..]) && OnlyRequired(iter.start, Recorded(words[..]))
    requires fixedField.Some? ==> fixedField.value < |iter.start|
    modifies stream, iter, words
    ensures stream.Valid() && stream.End() <= old(stream.End()) && iter.Valid()
    ensures Words(words[..]) && OnlyRequired(iter.start, Recorded(words[..]))
    ensures fixedField'.Some? ==> fixedField'.value < |iter.start|
    ensures var st := State(slots, old(Recorded(words[..])), fixedField, fixedSize);
            var st' := State(slots', Recorded(words[..]), fixedField', fixedSize');
            var t := Step(iter.start, st, old(stream.Left()));
            && ok == !t.Error?
            && (ok ==> stream.End() == old(stream.End())
                       && (if stop then t == Stop(stream.Left()) && st' == st else t == Next(st', stream.Left())))
    decreases iter.start, 0, 1
  {
    hide KnownField, Dec32, Skip, Shaped, Words, Recorded, FindTagFrom;
    stop, slots', fixedField', fixedSize' := false, slots, fixedField, fixedSize;
    var wireType, tag, eof;
    ok, wireType, tag, eof := stream.DecodeTag();
    if !ok {
      return eof, true, slots', fixedField', fixedSize';
    }
    var found := iter.Find(tag);
    if !found {
      ok := stream.SkipField(wireType);
    } else if |iter.start| == 0 {
      Record(words, 0);
      var value;
      ok, value, eof := stream.DecodeVarint32Eof();
    } else {
      FoundIsFindTag(iter.start, tag, iter.pos);
      ok, slots', fixedField', fixedSize' := DecodeKnown(stream, iter, wireType, slots, words, fixedField, fixedSize);
    }
  }

  /** pb_decode. */
  method DecodeMessage(stream: IStream, fields: seq<Field>, dest: seq<Slot>) returns (ok: bool, slots: seq<Slot>)
    requires stream.Valid() && ValidFields(fields) && Shaped(fields, dest)
    modifies stream
    ensures stream.Took(ok, Decode(fields, dest, old(stream.Left())), old(stream.End()))
    ensures ok ==> slots == Decode(fields, dest, old(stream.Left())).value
  {
    DefaultsAreFresh(fields, dest);
    ok, slots := DecodeInto(stream, fields, Defaults(fields, dest));
  }

  /** pb_decode_delimited. */
  method DecodeDelimitedMessage(stream: IStream, fields: seq<Field>, dest: seq<Slot>)
    returns (ok: bool, slots: seq<Slot>)
    requires stream.Valid() && ValidFields(fields) && Shaped(fields, dest)
    modifies stream
    ensures stream.Took(ok, DecodeDelimited(fields, dest, old(stream.Left())), old(stream.End()))
    ensures ok ==> slots == DecodeDelimited(fields, dest, old(stream.Left())).value
  {
    slots := dest;
    ghost var s, end := stream.Left(), stream.End();
    var sub;
    ok, sub := stream.MakeSubstream();
    if !ok { return; }
    ok, slots := DecodeMessage(sub, fields, dest);
    var _ := stream.CloseSubstream(sub);
    if ok { ClosedWindow(stream, s, end); }
  }
}
