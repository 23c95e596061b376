/** Repeated fields of packable types decode alike from a packed block and from keyed items. */
module Packing {
  import opened Bits
  import opened Descriptor
  import opened Options
  import opened Varints
  import opened Serialize
  import opened Deserialize
  import opened RoundTrip

  /** Storing items one after the other behind those already there, until the array is full. */
  function StoreAll(f: Field, a: Filled, items: seq<Value>): (r: Option<Filled>)
    ensures r.Some? ==> r.value.count == a.count + |items| <= f.arraySize || items == []
    ensures r.Some? ==> |r.value.items| == |a.items|
    decreases |items|
  {
    if items == [] then Some(a)
    else if a.count >= f.arraySize || a.count >= |a.items| then None
    else StoreAll(f, Filled(a.items[a.count := items[0]], a.count + 1), items[1..])
  }

  /** Items of packable types come back as they were, whatever was there before. */
  lemma PackableComesBack(f: Field, v: Value, was: Value, rest: bytes)
    requires ValidField(f) && f.Packable() && ShapedValue(f, v) && EncodableValue(f, v)
    ensures DecValue(f, was, SerValue(f, v) + rest) == Ok(v, rest)
  {
    hide Enc, Dec32, Dec64, LittleEndian, ZigZag;
    match f.ltype
    case Bool => BoolRoundTrip(f, v.b, rest);
    case Varint => VarintRoundTrip(f, v.i, rest);
    case UVarint => UVarintRoundTrip(f, v.i, rest);
    case SVarint => SVarintRoundTrip(f, v.i, rest);
    case Fixed32 => FixedRoundTrip(f, v.i, rest);
    case Fixed64 => FixedRoundTrip(f, v.i, rest);
  }

  predicate Packables(f: Field, items: seq<Value>) {
    f.Packable() && forall k | 0 <= k < |items| :: ShapedValue(f, items[k]) && EncodableValue(f, items[k])
  }

  /** One item, in front of any bytes. */
  lemma StoreOne(f: Field, a: Filled, v: Value, rest: bytes)
    requires ValidField(f) && f.Packable() && ShapedValue(f, v) && EncodableValue(f, v)
    ensures DecItem(f, a, SerValue(f, v) + rest)
         == if a.count >= f.arraySize || a.count >= |a.items| then Fail
            else Ok(Filled(a.items[a.count := v], a.count + 1), rest)
  {
    hide DecValue, SerValue;
    if a.count < |a.items| { PackableComesBack(f, v, a.items[a.count], rest); }
  }

  lemma {:induction false} PackedStores(f: Field, a: Filled, items: seq<Value>)
    requires ValidField(f) && Packables(f, items)
    ensures DecPacked(f, a, SerItems(f, items)) == StoreAll(f, a, items)
    decreases |items|
  {
    hide SerValue, DecItem, ShapedValue, EncodableValue, ValidField;
    if items != [] {
      var rest := SerItems(f, items[1..]);
      assert ShapedValue(f, items[0]) && EncodableValue(f, items[0]);
      StoreOne(f, a, items[0], rest);
      SerValueNonEmpty(f, items[0]);
      assert SerItems(f, items) == SerValue(f, items[0]) + rest && SerItems(f, items) != [];
      if a.count < f.arraySize && a.count < |a.items| {
        PackedStores(f, Filled(a.items[a.count := items[0]], a.count + 1), items[1..]);
      }
    }
  }

  /** What the loop makes of a repeated entry's items, however they come. */
  function Stored(fields: seq<Field>, st: State, i: nat, items: seq<Value>, y: bytes): Outcome
    requires i < |fields| == |st.slots|
  {
    match StoreAll(fields[i], ItemsAt(fields, st, i), items)
    case None => Failed
    case Some(a) => Run(fields, WithItems(fields, st, i, a), y)
  }

  /** A turn of the loop on one packed block or one item of entry `i`, in front of any bytes. */
  lemma RepeatedStep(fields: seq<Field>, st: State, i: nat, wt: nat, payload: bytes, y: bytes, r: Option<Filled>)
    requires ValidFields(fields) && RepeatedSlot(fields, st, i) && wt < 8 && EnterFixed(fields, st, i).Some?
    requires DecRepeated(fields[i], ItemsAt(fields, st, i), wt, payload + y)
          == if r.Some? then Ok(r.value, y) else Fail
    ensures Run(fields, st, Key(fields[i].tag, wt) + payload + y)
         == if r.Some? then Run(fields, WithItems(fields, st, i, r.value), y) else Failed
  {
    hide DecRepeated, Enc, Dec32;
    var key, s, f := Key(fields[i].tag, wt), payload + y, fields[i];
    assert key + payload + y == key + s && SlotOf(fields, i) == i && ValidField(f);
    KeyRoundTrip(f.tag, wt, s);
    FindOwnTag(fields, i);
    assert key != [] by { KeyIsThere(f.tag, wt); }
    KnownRepeated(fields, st, i, wt, s, y, r);
    hide KnownField;
    assert Step(fields, st, key + s)
        == if r.Some? then Next(WithItems(fields, st, i, r.value), y) else Error;
  }

  lemma KnownRepeated(fields: seq<Field>, st: State, i: nat, wt: nat, s: bytes, y: bytes, r: Option<Filled>)
    requires RepeatedSlot(fields, st, i) && SlotOf(fields, i) == i && EnterFixed(fields, st, i).Some?
    requires DecRepeated(fields[i], ItemsAt(fields, st, i), wt, s) == if r.Some? then Ok(r.value, y) else Fail
    ensures KnownField(fields, st, i, wt, s)
         == if r.Some? then Next(WithItems(fields, st, i, r.value), y) else Error
  {
    hide DecRepeated, RequiredBefore;
    var f, st1 := fields[i], EnterFixed(fields, st, i).value;
    assert MarkSeen(fields, st1, i) == st1 && st1.slots == st.slots;
    if f.FixedCount() {
      assert ItemsAt(fields, st, i) == Filled(st.slots[i].items, st1.fixedCount);
    } else {
      assert ItemsAt(fields, st, i) == Filled(st.slots[i].items, st.slots[i].count);
    }
  }

  lemma KeyIsThere(tag: nat, wt: nat)
    ensures Key(tag, wt) != []
  {
  }

  lemma {:induction false} KeyedStores(fields: seq<Field>, st: State, i: nat, items: seq<Value>, y: bytes)
    requires ValidFields(fields) && RepeatedSlot(fields, st, i) && EnterFixed(fields, st, i).Some?
    requires Packables(fields[i], items) && items != []
    ensures Run(fields, st, SerKeyedItems(fields[i], items) + y) == Stored(fields, st, i, items, y)
    decreases |items|
  {
    hide SerValue, Key, DecValue, Run, ShapedValue, EncodableValue, Shaped;
    var f, a := fields[i], ItemsAt(fields, st, i);
    assert ValidField(f) && ShapedValue(f, items[0]) && EncodableValue(f, items[0]);
    var rest := SerKeyedItems(f, items[1..]) + y;
    KeyedFirst(f, items, y);
    StoreOne(f, a, items[0], rest);
    var full := a.count >= f.arraySize || a.count >= |a.items|;
    var one := if full then None else Some(Filled(a.items[a.count := items[0]], a.count + 1));
    RepeatedStep(fields, st, i, WireType(f), SerValue(f, items[0]), rest, one);
    StoredFirst(fields, st, i, items, y);
    if !full {
      InsideArray(fields, st, i, one.value);
      if |items| == 1 {
        NoneLeft(f);
        assert items[1..] == [] && rest == y;
      } else {
        KeyedStores(fields, WithItems(fields, st, i, one.value), i, items[1..], y);
      }
    }
  }

  /** Storing the first item and then, from the state reached, the others. */
  lemma StoredFirst(fields: seq<Field>, st: State, i: nat, items: seq<Value>, y: bytes)
    requires RepeatedSlot(fields, st, i) && items != []
    ensures var a := ItemsAt(fields, st, i);
            Stored(fields, st, i, items, y)
            == if a.count >= fields[i].arraySize || a.count >= |a.items| then Failed
               else
                 var st1 := WithItems(fields, st, i, Filled(a.items[a.count := items[0]], a.count + 1));
                 if |items| == 1 then Run(fields, st1, y) else Stored(fields, st1, i, items[1..], y)
  {
    hide Run;
    var f, a := fields[i], ItemsAt(fields, st, i);
    if a.count < f.arraySize && a.count < |a.items| {
      var one := Filled(a.items[a.count := items[0]], a.count + 1);
      InsideArray(fields, st, i, one);
      hide ItemsAt, WithItems;
      assert StoreAll(f, a, items) == StoreAll(f, one, items[1..]);
    }
  }

  lemma NoneLeft(f: Field)
    ensures SerKeyedItems(f, []) == []
  {
  }

  lemma KeyedFirst(f: Field, items: seq<Value>, y: bytes)
    requires items != []
    ensures SerKeyedItems(f, items) + y
         == Key(f.tag, WireType(f)) + SerValue(f, items[0]) + (SerKeyedItems(f, items[1..]) + y)
  {
    hide Key, SerValue;
  }

  /**
   The same items, packed or each behind its own key, take the message loop to the same state from any state,
   or both fail, whichever form the encoder at the other end has chosen.
   */
  lemma PackedAndKeyedAlike(fields: seq<Field>, st: State, i: nat, items: seq<Value>, y: bytes)
    requires ValidFields(fields) && RepeatedSlot(fields, st, i) && Packables(fields[i], items) && items != []
    requires |SerItems(fields[i], items)| < U32
    ensures Run(fields, st, Key(fields[i].tag, WT_STRING) + Prefixed(SerItems(fields[i], items)) + y)
         == Run(fields, st, SerKeyedItems(fields[i], items) + y)
  {
    hide Run, SerValue, Key, ShapedValue, EncodableValue, Shaped, SerItems, SerKeyedItems;
    var f := fields[i];
    assert ValidField(f);
    if EnterFixed(fields, st, i).None? {
      NotEnteredEither(fields, st, i, items, y);
    } else {
      var body := SerItems(f, items);
      WindowOfPrefixed(body, y);
      PackedStores(f, ItemsAt(fields, st, i), items);
      RepeatedStep(fields, st, i, WT_STRING, Prefixed(body), y, StoreAll(f, ItemsAt(fields, st, i), items));
      KeyedStores(fields, st, i, items, y);
    }
  }

  /** Both are refused while another fixed-count array is incomplete. */
  lemma NotEnteredEither(fields: seq<Field>, st: State, i: nat, items: seq<Value>, y: bytes)
    requires ValidFields(fields) && i < |fields| && EnterFixed(fields, st, i).None? && items != []
    ensures Run(fields, st, Key(fields[i].tag, WT_STRING) + Prefixed(SerItems(fields[i], items)) + y) == Failed
    ensures Run(fields, st, SerKeyedItems(fields[i], items) + y) == Failed
  {
    hide ValidFields, EnterFixed, Run, Key, Prefixed, SerItems, SerKeyedItems, SerValue;
    var f := fields[i];
    var body, v, rest := Prefixed(SerItems(f, items)), SerValue(f, items[0]), SerKeyedItems(f, items[1..]) + y;
    KeyedFirst(f, items, y);
    NotEntered(fields, st, i, WT_STRING, body + y);
    NotEntered(fields, st, i, WireType(f), v + rest);
    Regroup(Key(f.tag, WT_STRING), body, y);
    Regroup(Key(f.tag, WireType(f)), v, rest);
  }

  lemma NotEntered(fields: seq<Field>, st: State, i: nat, wt: nat, s: bytes)
    requires ValidFields(fields) && i < |fields| && EnterFixed(fields, st, i).None? && wt < 8
    ensures Run(fields, st, Key(fields[i].tag, wt) + s) == Failed
  {
    hide Enc, Dec32;
    assert ValidField(fields[i]);
    KeyRoundTrip(fields[i].tag, wt, s);
    FindOwnTag(fields, i);
    assert Key(fields[i].tag, wt) + s != [] by { KeyIsThere(fields[i].tag, wt); }
    assert Step(fields, st, Key(fields[i].tag, wt) + s) == Error;
  }
}
