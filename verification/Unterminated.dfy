/** Which encoded messages the decoder takes back: exactly those whose encoded strings are terminated. */
module Unterminated {
  import opened Descriptor
  import opened Options
  import opened Varints
  import opened Serialize
  import opened Deserialize
  import opened Equivalence
  import opened Freshness
  import opened RoundTrip
  import opened Shapes

  // ---------------------------------------------------------------- items

  /** A string that fills its buffer has no room for a terminator when it is decoded. */
  lemma {:induction false} ValueRejected(f: Field, v: Value, was: Value, rest: bytes)
    requires ValidField(f) && ShapedValue(f, v) && EncodableValue(f, v) && ShortValue(f, v) && Ready(f, was)
    requires !TerminatedValue(f, v)
    ensures DecValue(f, was, SerValue(f, v) + rest) == Fail
    decreases f, 0
  {
    if f.ltype == String {
      WindowOfPrefixed(CString(v.buf), rest);
    } else {
      var start := if f.htype == Repeated then Defaults(f.sub, was.slots) else was.slots;
      if f.htype == Repeated { DefaultsAreFresh(f.sub, was.slots); }
      WindowOfPrefixed(Ser(f.sub, v.slots), rest);
      MessageRejected(f.sub, v.slots, start);
    }
  }

  lemma {:induction false} FirstUnterminated(f: Field, items: seq<Value>) returns (j: nat)
    requires exists k :: 0 <= k < |items| && !TerminatedValue(f, items[k])
    ensures j < |items| && !TerminatedValue(f, items[j]) && forall k | 0 <= k < j :: TerminatedValue(f, items[k])
  {
    if TerminatedValue(f, items[0]) {
      var k :| 0 <= k < |items| && !TerminatedValue(f, items[k]);
      assert !TerminatedValue(f, items[1..][k - 1]);
      j := FirstUnterminated(f, items[1..]);
      forall k | 0 <= k <= j ensures TerminatedValue(f, items[k]) {
        if k > 0 { assert items[k] == items[1..][k - 1]; }
      }
      j := j + 1;
    } else {
      j := 0;
    }
  }

  lemma {:induction false} KeyedItemsAppend(f: Field, a: seq<Value>, b: seq<Value>)
    ensures SerKeyedItems(f, a + b) == SerKeyedItems(f, a) + SerKeyedItems(f, b)
    decreases |a|
  {
    hide Key, SerValue;
    if a == [] {
      assert a + b == b;
    } else {
      assert (a + b)[1..] == a[1..] + b;
      KeyedItemsAppend(f, a[1..], b);
    }
  }

  // ---------------------------------------------------------------- turns of the loop

  /** A turn of the loop whose field cannot be decoded. */
  lemma ErrorTurn(fields: seq<Field>, st: State, i: nat, wt: nat, payload: bytes, y: bytes)
    requires ValidFields(fields) && i < |fields| == |st.slots| && wt < 8 && EnterFixed(fields, st, i).Some?
    requires var st1 := EnterFixed(fields, st, i).value;
             DecSlot(fields[i], st1.slots[SlotOf(fields, i)], st1.fixedCount, wt, payload + y) == Fail
    ensures Run(fields, st, Key(fields[i].tag, wt) + payload + y) == Failed
  {
    hide DecSlot, Enc, Dec32;
    assert ValidField(fields[i]);
    KeyRoundTrip(fields[i].tag, wt, payload + y);
    FindOwnTag(fields, i);
    assert Key(fields[i].tag, wt) + payload + y == Key(fields[i].tag, wt) + (payload + y);
    KeyNotEmpty(fields[i].tag, wt);
    assert Step(fields, st, Key(fields[i].tag, wt) + (payload + y)) == Error;
  }

  lemma KeyNotEmpty(tag: nat, wt: nat)
    ensures Key(tag, wt) != []
  {
  }

  lemma {:induction false} KeyedRejected(fields: seq<Field>, st: State, i: nat, items: seq<Value>, y: bytes)
    requires ValidFields(fields) && RepeatedSlot(fields, st, i) && EnterFixed(fields, st, i).Some?
    requires Partial(fields[i], items, ItemsAt(fields, st, i), 0)
    requires forall k | 0 <= k < |items| ::
      ShapedValue(fields[i], items[k]) && EncodableValue(fields[i], items[k]) && ShortValue(fields[i], items[k])
    requires exists k :: 0 <= k < |items| && !TerminatedValue(fields[i], items[k])
    ensures Run(fields, st, SerKeyedItems(fields[i], items) + y) == Failed
    decreases fields, 0
  {
    var f := fields[i];
    assert ValidField(f);
    var j := FirstUnterminated(f, items);
    var rest := SerKeyedItems(f, items[j + 1..]) + y;
    var one := Key(f.tag, WireType(f)) + SerValue(f, items[j]);
    SplitAt(f, items, j, y);
    var st1 := ItemsBefore(fields, st, i, items, j, one + rest);
    var a := ItemsAt(fields, st1, i);
    ValueRejected(f, items[j], a.items[j], rest);
    hide *;
    ItemError(fields, st1, i, SerValue(f, items[j]), rest);
  }

  /** The items before the first unterminated one are decoded. */
  lemma {:induction false} ItemsBefore(fields: seq<Field>, st: State, i: nat, items: seq<Value>, j: nat, y: bytes)
    returns (st1: State)
    requires ValidFields(fields) && RepeatedSlot(fields, st, i) && EnterFixed(fields, st, i).Some?
    requires Partial(fields[i], items, ItemsAt(fields, st, i), 0) && j < |items|
    requires forall k | 0 <= k <= j ::
      ShapedValue(fields[i], items[k]) && EncodableValue(fields[i], items[k]) && ShortValue(fields[i], items[k])
    requires !TerminatedValue(fields[i], items[j]) && forall k | 0 <= k < j :: TerminatedValue(fields[i], items[k])
    ensures Run(fields, st, SerKeyedItems(fields[i], items[..j]) + y) == Run(fields, st1, y)
    ensures RepeatedSlot(fields, st1, i) && EnterFixed(fields, st1, i).Some? && !fields[i].Packable()
    ensures Partial(fields[i], items, ItemsAt(fields, st1, i), j)
    decreases fields, 0, 0
  {
    var f, good := fields[i], items[..j];
    assert !f.Packable();
    hide SerKeyedItems, DecValue, TerminatedValue, ShortValue, EncodableValue, ShapedValue;
    st1 := st;
    if j == 0 {
      NoKeyedItems(f);
      assert SerKeyedItems(f, good) + y == y;
    } else {
      assert good[0..] == good && Partial(f, good, ItemsAt(fields, st, i), 0);
      var a := KeyedRoundTrip(fields, st, i, good, 0, y);
      st1 := WithItems(fields, st, i, a);
      InsideArray(fields, st, i, a);
    }
  }

  lemma NoKeyedItems(f: Field)
    ensures SerKeyedItems(f, []) == []
  {
  }

  lemma SplitAt(f: Field, items: seq<Value>, j: nat, y: bytes)
    requires j < |items|
    ensures SerKeyedItems(f, items) + y
         == SerKeyedItems(f, items[..j])
            + (Key(f.tag, WireType(f)) + SerValue(f, items[j]) + (SerKeyedItems(f, items[j + 1..]) + y))
  {
    hide Key, SerValue, SerKeyedItems;
    var late := items[j..];
    assert items == items[..j] + late && late[0] == items[j] && late[1..] == items[j + 1..];
    KeyedItemsAppend(f, items[..j], late);
    FirstKeyed(f, late);
    Regroup(SerKeyedItems(f, items[..j]), Key(f.tag, WireType(f)) + SerValue(f, items[j]),
            SerKeyedItems(f, items[j + 1..]), y);
  }

  lemma FirstKeyed(f: Field, items: seq<Value>)
    requires items != []
    ensures SerKeyedItems(f, items) == Key(f.tag, WireType(f)) + SerValue(f, items[0]) + SerKeyedItems(f, items[1..])
  {
  }

  lemma Regroup(a: bytes, b: bytes, c: bytes, d: bytes)
    ensures a + (b + c) + d == a + (b + (c + d))
  {
  }

  lemma ItemError(fields: seq<Field>, st: State, i: nat, payload: bytes, rest: bytes)
    requires ValidFields(fields) && RepeatedSlot(fields, st, i) && EnterFixed(fields, st, i).Some?
    requires !fields[i].Packable()
    requires var a := ItemsAt(fields, st, i);
      a.count < |a.items| && DecValue(fields[i], a.items[a.count], payload + rest) == Fail
    ensures Run(fields, st, Key(fields[i].tag, WireType(fields[i])) + payload + rest) == Failed
  {
    hide DecValue;
    var f := fields[i];
    assert SlotOf(fields, i) == i;
    assert DecRepeated(f, ItemsAt(fields, st, i), WireType(f), payload + rest) == Fail;
    ErrorTurn(fields, st, i, WireType(f), payload, rest);
  }

  lemma {:induction false} SingleRejected(fields: seq<Field>, msg: seq<Slot>, st: State, i: nat, y: bytes)
    requires EntryEncodable(fields, msg, i) && At(fields, msg, st, i) && fields[i].htype != Repeated
    requires var f, s := fields[i], msg[SlotOf(fields, i)];
             ShortSlot(f, s) && !TerminatedSlot(f, s) && SerSlot(f, s) != []
    ensures Run(fields, st, SerSlot(fields[i], msg[SlotOf(fields, i)]) + y) == Failed
    decreases fields, 0
  {
    var f, h := fields[i], SlotOf(fields, i);
    var s, t := msg[h], st.slots[h];
    DataReady(fields, msg, st, i);
    assert ShortValue(f, LiveValues(f, s)[0]);
    FreshMemberIsFresh(f);
    var was := if f.htype == Oneof then FreshMember(f) else t.v;
    ValueRejected(f, s.v, was, y);
    ErrorTurn(fields, st, i, WireType(f), SerValue(f, s.v), y);
  }

  lemma LiveIsEncoded(f: Field, s: Slot)
    requires ValidField(f) && SlotFits(f, s) && LiveValues(f, s) != []
    ensures SerSlot(f, s) != []
  {
    hide Key, SerValue, SerItems;
    KeyNotEmpty(f.tag, WireType(f));
    KeyNotEmpty(f.tag, WT_STRING);
    if f.htype == Repeated {
      var items := Live(s);
      assert |SerArray(f, items)| > 0;
    } else {
      assert |Key(f.tag, WireType(f)) + SerValue(f, s.v)| > 0;
    }
  }

  // ---------------------------------------------------------------- messages

  lemma {:induction false} EntryRejected(fields: seq<Field>, msg: seq<Slot>, st: State, i: nat, y: bytes)
    requires EntryEncodable(fields, msg, i) && At(fields, msg, st, i)
    requires var f, s := fields[i], msg[SlotOf(fields, i)]; ShortSlot(f, s) && !TerminatedSlot(f, s)
    ensures Run(fields, st, SerSlot(fields[i], msg[SlotOf(fields, i)]) + y) == Failed
    decreases fields, 1
  {
    var f, s := fields[i], msg[SlotOf(fields, i)];
    ShapedFits(fields, msg, i);
    LiveIsEncoded(f, s);
    if f.htype == Repeated {
      ArrayReady(fields, msg, st, i);
      var items := Live(msg[i]);
      forall k | 0 <= k < |items| ensures ShortValue(f, items[k]) {
        assert ShortValue(f, LiveValues(f, s)[k]);
      }
      KeyedRejected(fields, st, i, items, y);
    } else {
      SingleRejected(fields, msg, st, i, y);
    }
  }

  lemma EntryOfShort(fields: seq<Field>, msg: seq<Slot>, i: nat, k: nat)
    requires i <= k && EntryEncodable(fields, msg, k) && Short(fields, msg)
    ensures i < |fields| == |msg| && EntryEncodable(fields, msg, i) && ShortSlot(fields[i], msg[SlotOf(fields, i)])
    ensures TerminatedSlot(fields[i], msg[SlotOf(fields, i)]) ==> EntryWellFormed(fields, msg, i)
  {
    hide ValidFields, Shaped, Encodable, ShortSlot, TerminatedSlot;
  }

  /** The loop gets as far as the first entry with an unterminated string. */
  lemma {:induction false} RunRejected(fields: seq<Field>, msg: seq<Slot>, st: State, i: nat, k: nat, y: bytes)
    requires i <= k && EntryEncodable(fields, msg, k) && Short(fields, msg) && At(fields, msg, st, i)
    requires !TerminatedSlot(fields[k], msg[SlotOf(fields, k)])
    ensures Run(fields, st, SerFrom(fields, msg, i) + y) == Failed
    decreases fields, 2, k - i
  {
    hide *;
    EntryOfShort(fields, msg, i, k);
    FirstEntry(fields, msg, i, y);
    var tail := SerFrom(fields, msg, i + 1) + y;
    if TerminatedSlot(fields[i], msg[SlotOf(fields, i)]) {
      var st1 := FieldRoundTrip(fields, msg, st, i, tail);
      RunRejected(fields, msg, st1, i + 1, k, y);
    } else {
      EntryRejected(fields, msg, st, i, tail);
    }
  }

  lemma {:induction false} MessageRejected(fields: seq<Field>, msg: seq<Slot>, start: seq<Slot>)
    requires ValidFields(fields) && Shaped(fields, msg) && Encodable(fields, msg) && Short(fields, msg)
    requires !Terminated(fields, msg) && Receptive(fields, start)
    ensures DecodeNoinit(fields, start, Ser(fields, msg)) == Fail
    decreases fields, 3
  {
    AgreesAtStart(fields, msg, start);
    var k :| 0 <= k < |fields| && !TerminatedSlot(fields[k], msg[SlotOf(fields, k)]);
    RunRejected(fields, msg, Start(start), 0, k, []);
    assert Ser(fields, msg) + [] == Ser(fields, msg);
  }

  /** Of all the messages pb_encode accepts, pb_decode takes back exactly those whose encoded strings are terminated. */
  lemma DecodesExactlyTerminated(fields: seq<Field>, msg: seq<Slot>, dest: seq<Slot>)
    requires ValidFields(fields) && Shaped(fields, msg) && Encodable(fields, msg) && Short(fields, msg)
    requires Shaped(fields, dest)
    ensures Decode(fields, dest, Ser(fields, msg)).Ok? <==> Terminated(fields, msg)
  {
    DefaultsAreFresh(fields, dest);
    if Terminated(fields, msg) {
      DecodeInvertsEncode(fields, msg, dest);
    } else {
      MessageRejected(fields, msg, Defaults(fields, dest));
    }
  }

  /**
   Whatever input was decoded, if the encoder takes the result, then decoding what it writes gives the same
   message again exactly when the result's encoded strings are terminated, and otherwise fails.
   */
  lemma ReadBackExactly(fields: seq<Field>, dest: seq<Slot>, s: bytes, dest': seq<Slot>)
    requires ValidFields(fields) && Shaped(fields, dest) && Shaped(fields, dest')
    requires Decode(fields, dest, s).Ok?
    requires var m := Decode(fields, dest, s).value; Encodable(fields, m) && Short(fields, m)
    ensures var m := Decode(fields, dest, s).value;
            var p := Decode(fields, dest', Ser(fields, m));
            (p.Ok? <==> Terminated(fields, m)) && (p.Ok? ==> p.rest == [] && Same(fields, m, p.value))
  {
    DefaultsAreFresh(fields, dest);
    DecodeShaped(fields, Defaults(fields, dest), s);
    var m := Decode(fields, dest, s).value;
    DecodesExactlyTerminated(fields, m, dest');
    if Terminated(fields, m) { DecodeInvertsEncode(fields, m, dest'); }
  }

  /** The shortest such message: one character in a buffer of one. */
  lemma FullBufferRefused(fields: seq<Field>, msg: seq<Slot>, dest: seq<Slot>)
    requires fields == [Field(1, String, Required, 0, 0, 1, 0, [], None)] && msg == [Single(StringV([65]))]
    requires Shaped(fields, dest)
    ensures ValidFields(fields) && Shaped(fields, msg) && Encodable(fields, msg)
    ensures !Terminated(fields, msg) && Decode(fields, dest, Ser(fields, msg)) == Fail
  {
    var f, buf: bytes := fields[0], [65];
    assert ValidFields(f.sub) && ValidField(f) && !f.InUnion();
    assert forall i | 0 <= i < |fields| :: fields[i] == f;
    assert SlotOf(fields, 0) == 0 && ShapedSlot(fields, 0, msg[0]) && EncodableSlot(f, msg[0]);
    assert LiveValues(f, msg[0]) == [StringV(buf)];
    assert CString(buf) == buf by { assert buf[1..] == []; }
    assert !TerminatedValue(f, LiveValues(f, msg[0])[0]);
    assert ShortSlot(f, msg[0]);
    DecodesExactlyTerminated(fields, msg, dest);
  }
}
