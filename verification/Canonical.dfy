/** Encoding as a function of the message: the same bytes exactly for structs that stand for the same message. */
module Canonical {
  import opened Descriptor
  import opened Serialize
  import opened Deserialize
  import opened Equivalence
  import opened Freshness
  import opened RoundTrip

  // ---------------------------------------------------------------- unions in order

  predicate ProperValue(f: Field, v: Value)
    decreases f, 0
  {
    f.ltype == Submessage && v.MessageV? ==> Proper(f.sub, v.slots)
  }

  predicate ProperSlot(fields: seq<Field>, h: nat, s: Slot)
    requires h < |fields|
    decreases fields, 0
  {
    match s
    case Single(v) => ProperValue(fields[h], v)
    case Has(has, v) => has ==> ProperValue(fields[h], v)
    case Union(which, v) =>
      var j := Selected(fields, h, which);
      if j.None? then which == 0 else ProperValue(fields[j.value], v)
    case Shared => true
    case _ => forall k | 0 <= k < |Live(s)| :: ProperValue(fields[h], Live(s)[k])
  }

  /** In the live part of the struct every `which_` word is 0 or the tag of a member of its union. */
  predicate Proper(fields: seq<Field>, slots: seq<Slot>)
    decreases fields, 1
  {
    && |slots| == |fields|
    && forall h | 0 <= h < |fields| :: ProperSlot(fields, h, slots[h])
  }

  // ---------------------------------------------------------------- the same message, the same bytes

  /** Nothing the encoder looks at tells the two values apart. */
  predicate LikeValue(f: Field, v: Value, w: Value) {
    && SerValue(f, v) == SerValue(f, w)
    && (EncodableValue(f, v) <==> EncodableValue(f, w))
    && (IsDefaultValue(f, v) <==> IsDefaultValue(f, w))
  }

  predicate LikeSlot(f: Field, s: Slot, t: Slot) {
    && SerSlot(f, s) == SerSlot(f, t)
    && (EncodableSlot(f, s) <==> EncodableSlot(f, t))
    && (IsDefault(f, s) <==> IsDefault(f, t))
  }

  lemma {:induction false} ValueBytes(f: Field, v: Value, w: Value)
    requires ValidField(f) && ShapedValue(f, v) && ShapedValue(f, w) && SameValue(f, v, w) && ProperValue(f, v)
    ensures LikeValue(f, v, w)
    decreases f, 0
  {
    match f.ltype
    case Submessage =>
      MessageBytes(f.sub, v.slots, w.slots);
    case String =>
      assert v.buf[0] == 0 <==> CString(v.buf) == [];
      assert w.buf[0] == 0 <==> CString(w.buf) == [];
    case _ =>
  }

  lemma {:induction false} ItemsBytes(f: Field, x: seq<Value>, y: seq<Value>)
    requires |x| == |y| && forall k | 0 <= k < |x| :: LikeValue(f, x[k], y[k])
    ensures SerItems(f, x) == SerItems(f, y) && SerKeyedItems(f, x) == SerKeyedItems(f, y)
    decreases |x|
  {
    hide LikeValue;
    if x != [] {
      assert SerValue(f, x[0]) == SerValue(f, y[0]) by { OneLike(f, x[0], y[0]); }
      ItemsBytes(f, x[1..], y[1..]);
    }
  }

  lemma OneLike(f: Field, v: Value, w: Value)
    requires LikeValue(f, v, w)
    ensures SerValue(f, v) == SerValue(f, w)
  {
  }

  lemma {:induction false} ArrayBytes(fields: seq<Field>, h: nat, s: Slot, t: Slot)
    requires ValidFields(fields) && h < |fields| && fields[h].htype == Repeated && SlotOf(fields, h) == h
    requires ShapedSlot(fields, h, s) && ShapedSlot(fields, h, t) && SameSlot(fields, h, s, t)
    requires ProperSlot(fields, h, s)
    ensures LikeSlot(fields[h], s, t)
    decreases fields, 0
  {
    var f, x, y := fields[h], Live(s), Live(t);
    assert ValidField(f);
    assert |x| == |y|;
    forall k | 0 <= k < |x| ensures LikeValue(f, x[k], y[k]) {
      assert SameValue(f, x[k], y[k]);
      ValueBytes(f, x[k], y[k]);
    }
    ItemsBytes(f, x, y);
  }

  lemma {:induction false} SlotBytes(fields: seq<Field>, i: nat, s: Slot, t: Slot)
    requires ValidFields(fields) && i < |fields|
    requires var h := SlotOf(fields, i);
      ShapedSlot(fields, h, s) && ShapedSlot(fields, h, t) && SameSlot(fields, h, s, t) && ProperSlot(fields, h, s)
    ensures LikeSlot(fields[i], s, t)
    decreases fields, 1
  {
    var f, h := fields[i], SlotOf(fields, i);
    assert ValidField(f);
    SlotOfOneof(fields, i);
    if f.htype == Repeated {
      ArrayBytes(fields, h, s, t);
    } else if f.htype == Oneof {
      FindOwnTag(fields, i);
      NoMemberZero(fields, h);
      if s.which == f.tag { ValueBytes(f, s.v, t.v); }
    } else if !s.Has? || s.has {
      ValueBytes(f, s.v, t.v);
    }
  }

  lemma {:induction false} MessageBytes(fields: seq<Field>, a: seq<Slot>, b: seq<Slot>)
    requires ValidFields(fields) && Shaped(fields, a) && Shaped(fields, b) && Same(fields, a, b) && Proper(fields, a)
    ensures Ser(fields, a) == Ser(fields, b)
    ensures Encodable(fields, a) <==> Encodable(fields, b)
    ensures forall i | 0 <= i < |fields| :: IsDefault(fields[i], a[SlotOf(fields, i)]) <==> IsDefault(fields[i], b[SlotOf(fields, i)])
    decreases fields, 2
  {
    forall i | 0 <= i < |fields| ensures LikeSlot(fields[i], a[SlotOf(fields, i)], b[SlotOf(fields, i)]) {
      var h := SlotOf(fields, i);
      assert ShapedSlot(fields, h, a[h]) && ShapedSlot(fields, h, b[h]) && SameSlot(fields, h, a[h], b[h]) && ProperSlot(fields, h, a[h]);
      SlotBytes(fields, i, a[h], b[h]);
    }
    BytesFrom(fields, a, b, 0);
  }

  lemma {:induction false} BytesFrom(fields: seq<Field>, a: seq<Slot>, b: seq<Slot>, i: nat)
    requires |a| == |b| == |fields| && i <= |fields|
    requires forall k | 0 <= k < |fields| :: LikeSlot(fields[k], a[SlotOf(fields, k)], b[SlotOf(fields, k)])
    ensures SerFrom(fields, a, i) == SerFrom(fields, b, i)
    decreases |fields| - i
  {
    if i < |fields| {
      assert LikeSlot(fields[i], a[SlotOf(fields, i)], b[SlotOf(fields, i)]);
      BytesFrom(fields, a, b, i + 1);
    }
  }

  // ---------------------------------------------------------------- two structs like a third

  lemma {:induction false} ValuesMeet(f: Field, v: Value, w: Value, x: Value)
    requires ShapedValue(f, v) && ShapedValue(f, w) && ProperValue(f, w) && SameValue(f, v, x) && SameValue(f, w, x)
    ensures SameValue(f, v, w)
    decreases f, 0
  {
    if f.ltype == Submessage { MessagesMeet(f.sub, v.slots, w.slots, x.slots); }
  }

  lemma {:induction false} SlotsMeet(fields: seq<Field>, h: nat, s: Slot, t: Slot, x: Slot)
    requires h < |fields| && ShapedSlot(fields, h, s) && ShapedSlot(fields, h, t) && ProperSlot(fields, h, t)
    requires SameSlot(fields, h, s, x) && SameSlot(fields, h, t, x)
    ensures SameSlot(fields, h, s, t)
    decreases fields, 0
  {
    var f := fields[h];
    match s
    case Single(v) => ValuesMeet(f, v, t.v, x.v);
    case Has(has, v) =>
      if has { ValuesMeet(f, v, t.v, x.v); }
    case Union(which, v) =>
      var j := Selected(fields, h, which);
      if j.Some? { ValuesMeet(fields[j.value], v, t.v, x.v); }
    case Shared =>
    case _ =>
      var n := |Live(s)|;
      forall k | 0 <= k < n ensures SameValue(f, s.items[k], t.items[k]) {
        assert Live(s)[k] == s.items[k] && Live(t)[k] == t.items[k];
        ValuesMeet(f, s.items[k], t.items[k], x.items[k]);
      }
  }

  lemma {:induction false} MessagesMeet(fields: seq<Field>, a: seq<Slot>, b: seq<Slot>, c: seq<Slot>)
    requires Shaped(fields, a) && Shaped(fields, b) && Proper(fields, b) && Same(fields, a, c) && Same(fields, b, c)
    ensures Same(fields, a, b)
    decreases fields, 1
  {
    forall h | 0 <= h < |fields| ensures SameSlot(fields, h, a[h], b[h]) {
      assert ShapedSlot(fields, h, a[h]) && ShapedSlot(fields, h, b[h]) && ProperSlot(fields, h, b[h]);
      assert SameSlot(fields, h, a[h], c[h]) && SameSlot(fields, h, b[h], c[h]);
      SlotsMeet(fields, h, a[h], b[h], c[h]);
    }
  }

  // ---------------------------------------------------------------- the laws

  /** Well-formed structs encode to the same bytes exactly when they stand for the same message. */
  lemma EncodingIsInjective(fields: seq<Field>, a: seq<Slot>, b: seq<Slot>)
    requires WellFormed(fields, a) && WellFormed(fields, b) && Proper(fields, a) && Proper(fields, b)
    ensures Ser(fields, a) == Ser(fields, b) <==> Same(fields, a, b)
  {
    if Same(fields, a, b) {
      MessageBytes(fields, a, b);
    }
    if Ser(fields, a) == Ser(fields, b) {
      var dest := ZeroSlots(fields);
      ZeroStructIsShaped(fields);
      DecodeInvertsEncode(fields, a, dest);
      DecodeInvertsEncode(fields, b, dest);
      MessagesMeet(fields, a, b, Decode(fields, dest, Ser(fields, a)).value);
    }
  }

  /** Encoding a decoded message again gives the bytes it was decoded from. */
  lemma ReencodeIsIdentity(fields: seq<Field>, msg: seq<Slot>, dest: seq<Slot>)
    requires WellFormed(fields, msg) && Proper(fields, msg) && Shaped(fields, dest)
    ensures var p := Decode(fields, dest, Ser(fields, msg));
            p.Ok? && Encodable(fields, p.value) && Ser(fields, p.value) == Ser(fields, msg)
  {
    DecodeInvertsEncode(fields, msg, dest);
    MessageBytes(fields, msg, Decode(fields, dest, Ser(fields, msg)).value);
  }
}
