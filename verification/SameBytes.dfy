/** Which structs encode to the same bytes: those with the same items to put out, field by field. */
module SameBytes {
  import opened Descriptor
  import opened Options
  import opened Varints
  import opened Serialize
  import opened Equivalence
  import opened RoundTrip
  import opened Packing
  import opened Canonical

  // ---------------------------------------------------------------- the relation

  predicate AlikeValue(f: Field, v: Value, w: Value)
    decreases f, 0
  {
    if f.ltype == Submessage then v.MessageV? && w.MessageV? && Alike(f.sub, v.slots, w.slots)
    else SameValue(f, v, w)
  }

  predicate AlikeItems(f: Field, x: seq<Value>, y: seq<Value>)
    decreases f, 1
  {
    |x| == |y| && forall k | 0 <= k < |x| :: AlikeValue(f, x[k], y[k])
  }

  /** Every field puts out as many items in one struct as in the other, and these are alike in turn. */
  predicate Alike(fields: seq<Field>, a: seq<Slot>, b: seq<Slot>)
    decreases fields
  {
    && |a| == |b| == |fields|
    && forall i | 0 <= i < |fields| ::
      AlikeItems(fields[i], LiveValues(fields[i], a[SlotOf(fields, i)]), LiveValues(fields[i], b[SlotOf(fields, i)]))
  }

  predicate Encodables(f: Field, x: seq<Value>) {
    forall k | 0 <= k < |x| :: ShapedValue(f, x[k]) && EncodableValue(f, x[k])
  }

  // ---------------------------------------------------------------- prefix codes

  lemma {:induction false} EncApart(m: nat, n: nat, x: bytes, y: bytes)
    requires Enc(m) + x == Enc(n) + y
    ensures m == n && x == y
    decreases m
  {
    EncFirst(m, x);
    EncFirst(n, y);
    var s := Enc(m) + x;
    if m < 128 {
      assert s[0] == m && s[1..] == x;
      assert n < 128;
      assert s[1..] == y;
    } else {
      assert s[0] == 128 + m % 128 && s[1..] == Enc(m / 128) + x;
      assert n >= 128;
      assert s[0] == 128 + n % 128 && s[1..] == Enc(n / 128) + y;
      EncApart(m / 128, n / 128, x, y);
    }
  }

  lemma PrefixedApart(s: bytes, t: bytes, x: bytes, y: bytes)
    requires Prefixed(s) + x == Prefixed(t) + y
    ensures s == t && x == y
  {
    hide Enc;
    Regroup(Enc(|s|), s, x);
    Regroup(Enc(|t|), t, y);
    EncApart(|s|, |t|, s + x, t + y);
    assert s == (s + x)[..|s|] && t == (t + y)[..|s|];
    assert x == (s + x)[|s|..] && y == (t + y)[|s|..];
  }

  lemma KeyApart(t: nat, wt: nat, u: nat, wu: nat, x: bytes, y: bytes)
    requires wt < 8 && wu < 8 && Key(t, wt) + x == Key(u, wu) + y
    ensures t == u && wt == wu && x == y
  {
    hide Enc;
    EncApart(8 * t + wt, 8 * u + wu, x, y);
  }

  // ---------------------------------------------------------------- items

  /** No item is a proper prefix of another, and equal ones are alike. */
  lemma {:induction false} ValueApart(f: Field, v: Value, w: Value, x: bytes, y: bytes)
    requires ValidField(f) && ShapedValue(f, v) && ShapedValue(f, w) && EncodableValue(f, v) && EncodableValue(f, w)
    requires SerValue(f, v) + x == SerValue(f, w) + y
    ensures AlikeValue(f, v, w) && x == y
    decreases f, 0
  {
    hide Enc, CString;
    match f.ltype
    case Bytes => PrefixedApart(v.buf[..v.size], w.buf[..w.size], x, y);
    case String => PrefixedApart(CString(v.buf), CString(w.buf), x, y);
    case FixedLengthBytes => PrefixedApart(v.buf, w.buf, x, y);
    case Submessage =>
      PrefixedApart(Ser(f.sub, v.slots), Ser(f.sub, w.slots), x, y);
      MessageApart(f.sub, v.slots, w.slots);
    case _ =>
      PackableComesBack(f, v, v, x);
      PackableComesBack(f, w, v, y);
  }

  lemma {:induction false} ItemsApart(f: Field, p: seq<Value>, q: seq<Value>)
    requires ValidField(f) && f.Packable() && Encodables(f, p) && Encodables(f, q)
    requires SerItems(f, p) == SerItems(f, q)
    ensures AlikeItems(f, p, q)
    decreases f, 1, |p|
  {
    hide SerValue, AlikeValue, ShapedValue, EncodableValue, ValidField;
    if p != [] { SerValueNonEmpty(f, p[0]); }
    if q != [] { SerValueNonEmpty(f, q[0]); }
    if p != [] && q != [] {
      ValueApart(f, p[0], q[0], SerItems(f, p[1..]), SerItems(f, q[1..]));
      ItemsApart(f, p[1..], q[1..]);
      AlikeMore(f, p, q);
    }
  }

  lemma AlikeMore(f: Field, p: seq<Value>, q: seq<Value>)
    requires p != [] && q != [] && AlikeValue(f, p[0], q[0]) && AlikeItems(f, p[1..], q[1..])
    ensures AlikeItems(f, p, q)
  {
    hide AlikeValue;
    forall k | 0 <= k < |p| ensures AlikeValue(f, p[k], q[k]) {
      if k > 0 { assert p[k] == p[1..][k - 1] && q[k] == q[1..][k - 1]; }
    }
  }

  /** The bytes do not begin with the field's key. */
  ghost predicate Elsewhere(tag: nat, s: bytes) {
    s == [] || exists t: nat, wt: nat, r: bytes | t != tag && wt < 8 :: s == Key(t, wt) + r
  }

  lemma NotElsewhere(tag: nat, wt: nat, r: bytes)
    requires wt < 8
    ensures !Elsewhere(tag, Key(tag, wt) + r)
  {
    hide Key;
    var s := Key(tag, wt) + r;
    KeyIsThere(tag, wt);
    forall t: nat, wu: nat, q: bytes | t != tag && wu < 8 ensures s != Key(t, wu) + q {
      if s == Key(t, wu) + q { KeyApart(tag, wt, t, wu, r, q); }
    }
  }

  lemma {:induction false} KeyedApart(f: Field, p: seq<Value>, q: seq<Value>, x: bytes, y: bytes)
    requires ValidField(f) && Encodables(f, p) && Encodables(f, q) && Elsewhere(f.tag, x) && Elsewhere(f.tag, y)
    requires SerKeyedItems(f, p) + x == SerKeyedItems(f, q) + y
    ensures AlikeItems(f, p, q) && x == y
    decreases f, 1, |p|
  {
    hide Key, SerValue, AlikeValue, ShapedValue, EncodableValue, ValidField, Elsewhere;
    var wt := WireType(f);
    KeyedTaken(f, p, x);
    KeyedTaken(f, q, y);
    if p != [] && q != [] {
      var x', y' := SerKeyedItems(f, p[1..]) + x, SerKeyedItems(f, q[1..]) + y;
      KeyApart(f.tag, wt, f.tag, wt, SerValue(f, p[0]) + x', SerValue(f, q[0]) + y');
      ValueApart(f, p[0], q[0], x', y');
      KeyedApart(f, p[1..], q[1..], x, y);
      AlikeMore(f, p, q);
    }
  }

  lemma KeyedTaken(f: Field, p: seq<Value>, x: bytes)
    requires Elsewhere(f.tag, x)
    ensures SerKeyedItems(f, p) + x
         == if p == [] then x else Key(f.tag, WireType(f)) + (SerValue(f, p[0]) + (SerKeyedItems(f, p[1..]) + x))
    ensures p == [] <==> Elsewhere(f.tag, SerKeyedItems(f, p) + x)
  {
    hide Key, SerValue, Elsewhere;
    if p == [] {
      assert [] + x == x;
    } else {
      var r := SerKeyedItems(f, p[1..]) + x;
      KeyedFirst(f, p, x);
      Regroup(Key(f.tag, WireType(f)), SerValue(f, p[0]), r);
      NotElsewhere(f.tag, WireType(f), SerValue(f, p[0]) + r);
    }
  }

  // ---------------------------------------------------------------- fields

  /** What a field puts out depends on its items only. */
  function Put(f: Field, x: seq<Value>): bytes {
    if f.htype == Repeated then SerArray(f, x) else SerKeyedItems(f, x)
  }

  lemma SlotPut(f: Field, s: Slot)
    requires ValidField(f) && SlotFits(f, s) && EncodableSlot(f, s)
    ensures SerSlot(f, s) == Put(f, LiveValues(f, s)) && Encodables(f, LiveValues(f, s))
  {
    hide SerValue, Key, ShapedValue, EncodableValue;
    if f.htype != Repeated {
      NoneLeft(f);
      if LiveValues(f, s) != [] {
        assert LiveValues(f, s) == [s.v] && [s.v][1..] == [];
        assert SerKeyedItems(f, [s.v]) == Key(f.tag, WireType(f)) + SerValue(f, s.v);
      }
    }
  }

  lemma {:induction false} PutApart(f: Field, p: seq<Value>, q: seq<Value>, x: bytes, y: bytes)
    requires ValidField(f) && Encodables(f, p) && Encodables(f, q) && Elsewhere(f.tag, x) && Elsewhere(f.tag, y)
    requires Put(f, p) + x == Put(f, q) + y
    ensures AlikeItems(f, p, q) && x == y
    decreases f, 2
  {
    hide Key, SerValue, SerItems, SerKeyedItems, Prefixed;
    hide AlikeValue, ShapedValue, EncodableValue, ValidField, Elsewhere;
    if f.htype == Repeated && f.Packable() {
      PackedTaken(f, p, x);
      PackedTaken(f, q, y);
      if p != [] && q != [] {
        var a, b := Prefixed(SerItems(f, p)), Prefixed(SerItems(f, q));
        KeyApart(f.tag, WT_STRING, f.tag, WT_STRING, a + x, b + y);
        PrefixedApart(SerItems(f, p), SerItems(f, q), x, y);
        ItemsApart(f, p, q);
      }
    } else {
      NoneLeft(f);
      KeyedApart(f, p, q, x, y);
    }
  }

  lemma PackedTaken(f: Field, p: seq<Value>, x: bytes)
    requires f.htype == Repeated && f.Packable() && Elsewhere(f.tag, x)
    ensures Put(f, p) + x == if p == [] then x else Key(f.tag, WT_STRING) + (Prefixed(SerItems(f, p)) + x)
    ensures p == [] <==> Elsewhere(f.tag, Put(f, p) + x)
  {
    hide Key, SerItems, Elsewhere, Prefixed;
    if p == [] {
      assert [] + x == x;
    } else {
      Regroup(Key(f.tag, WT_STRING), Prefixed(SerItems(f, p)), x);
      NotElsewhere(f.tag, WT_STRING, Prefixed(SerItems(f, p)) + x);
    }
  }

  /** What follows a field does not begin with its key. */
  lemma {:induction false} FollowedElsewhere(fields: seq<Field>, a: seq<Slot>, i: nat, tag: nat)
    requires EncodableMessage(fields, a) && i <= |fields|
    requires forall j | i <= j < |fields| :: fields[j].tag != tag
    ensures Elsewhere(tag, SerFrom(fields, a, i))
    decreases |fields| - i
  {
    hide Key, SerItems, SerKeyedItems, Prefixed, LiveValues, SerSlot, SlotOf;
    if i < |fields| {
      FieldFits(fields, a, i);
      var f, s := fields[i], a[SlotOf(fields, i)];
      var x, rest := LiveValues(f, s), SerFrom(fields, a, i + 1);
      SlotPut(f, s);
      FollowedElsewhere(fields, a, i + 1, tag);
      if x == [] {
        NoneLeft(f);
        assert [] + rest == rest;
      } else if f.htype == Repeated && f.Packable() {
        Regroup(Key(f.tag, WT_STRING), Prefixed(SerItems(f, x)), rest);
      } else {
        KeyedFirst(f, x, rest);
        Regroup(Key(f.tag, WireType(f)), SerValue(f, x[0]), SerKeyedItems(f, x[1..]) + rest);
      }
    }
  }

  // ---------------------------------------------------------------- messages

  predicate EncodableMessage(fields: seq<Field>, a: seq<Slot>) {
    ValidFields(fields) && Shaped(fields, a) && Encodable(fields, a)
  }

  lemma SameLength(fields: seq<Field>, a: seq<Slot>)
    requires EncodableMessage(fields, a)
    ensures |a| == |fields|
  {
  }

  lemma FieldFits(fields: seq<Field>, a: seq<Slot>, i: nat)
    requires EncodableMessage(fields, a) && i < |fields|
    ensures ValidField(fields[i]) && SlotFits(fields[i], a[SlotOf(fields, i)])
    ensures EncodableSlot(fields[i], a[SlotOf(fields, i)])
    ensures forall j | i < j < |fields| :: fields[j].tag != fields[i].tag
  {
    ShapedFits(fields, a, i);
  }

  /** From entry `i` on. */
  lemma {:induction false} FieldsApart(fields: seq<Field>, a: seq<Slot>, b: seq<Slot>, i: nat)
    requires EncodableMessage(fields, a) && EncodableMessage(fields, b) && i <= |fields|
    requires SerFrom(fields, a, i) == SerFrom(fields, b, i)
    ensures forall k | i <= k < |fields| ::
      AlikeItems(fields[k], LiveValues(fields[k], a[SlotOf(fields, k)]), LiveValues(fields[k], b[SlotOf(fields, k)]))
    decreases fields, 3, |fields| - i
  {
    hide SerSlot, LiveValues, AlikeItems, SlotOf, Put, Elsewhere, EncodableMessage;
    if i < |fields| {
      SameLength(fields, a);
      SameLength(fields, b);
      var f, s, t := fields[i], a[SlotOf(fields, i)], b[SlotOf(fields, i)];
      FieldFits(fields, a, i);
      FieldFits(fields, b, i);
      SlotPut(f, s);
      SlotPut(f, t);
      FollowedElsewhere(fields, a, i + 1, f.tag);
      FollowedElsewhere(fields, b, i + 1, f.tag);
      PutApart(f, LiveValues(f, s), LiveValues(f, t), SerFrom(fields, a, i + 1), SerFrom(fields, b, i + 1));
      FieldsApart(fields, a, b, i + 1);
    }
  }

  lemma {:induction false} MessageApart(fields: seq<Field>, a: seq<Slot>, b: seq<Slot>)
    requires EncodableMessage(fields, a) && EncodableMessage(fields, b) && Ser(fields, a) == Ser(fields, b)
    ensures Alike(fields, a, b)
    decreases fields, 4
  {
    FieldsApart(fields, a, b, 0);
  }

  lemma {:induction false} ValueTogether(f: Field, v: Value, w: Value)
    requires ValidField(f) && ShapedValue(f, v) && ShapedValue(f, w) && EncodableValue(f, v) && EncodableValue(f, w)
    requires AlikeValue(f, v, w)
    ensures SerValue(f, v) == SerValue(f, w)
    decreases f, 0
  {
    if f.ltype == Submessage { MessageTogether(f.sub, v.slots, w.slots); }
  }

  lemma AlikeFewer(f: Field, p: seq<Value>, q: seq<Value>)
    requires p != [] && AlikeItems(f, p, q)
    ensures AlikeItems(f, p[1..], q[1..])
  {
    hide AlikeValue;
  }

  lemma PutTogether(f: Field, p: seq<Value>, q: seq<Value>)
    requires |p| == |q| && SerItems(f, p) == SerItems(f, q) && SerKeyedItems(f, p) == SerKeyedItems(f, q)
    ensures Put(f, p) == Put(f, q)
  {
    hide SerItems, SerKeyedItems, Key, Prefixed;
  }

  lemma {:induction false} ItemsTogether(f: Field, p: seq<Value>, q: seq<Value>)
    requires ValidField(f) && Encodables(f, p) && Encodables(f, q) && AlikeItems(f, p, q)
    ensures SerItems(f, p) == SerItems(f, q) && SerKeyedItems(f, p) == SerKeyedItems(f, q)
    decreases f, 1, |p|
  {
    hide Key, SerValue, AlikeValue, ShapedValue, EncodableValue, ValidField;
    if p != [] {
      ValueTogether(f, p[0], q[0]);
      AlikeFewer(f, p, q);
      ItemsTogether(f, p[1..], q[1..]);
    }
  }

  lemma AlikeField(fields: seq<Field>, a: seq<Slot>, b: seq<Slot>, i: nat)
    requires Alike(fields, a, b) && i < |fields|
    ensures var x, y := LiveValues(fields[i], a[SlotOf(fields, i)]), LiveValues(fields[i], b[SlotOf(fields, i)]);
            AlikeItems(fields[i], x, y) && |x| == |y|
  {
  }

  lemma {:induction false} FieldsTogether(fields: seq<Field>, a: seq<Slot>, b: seq<Slot>, i: nat)
    requires EncodableMessage(fields, a) && EncodableMessage(fields, b) && Alike(fields, a, b) && i <= |fields|
    ensures SerFrom(fields, a, i) == SerFrom(fields, b, i)
    decreases fields, 3, |fields| - i
  {
    hide SerSlot, LiveValues, AlikeItems, SlotOf, Put, EncodableMessage;
    if i < |fields| {
      SameLength(fields, a);
      SameLength(fields, b);
      var f, s, t := fields[i], a[SlotOf(fields, i)], b[SlotOf(fields, i)];
      FieldFits(fields, a, i);
      FieldFits(fields, b, i);
      SlotPut(f, s);
      SlotPut(f, t);
      AlikeField(fields, a, b, i);
      ItemsTogether(f, LiveValues(f, s), LiveValues(f, t));
      PutTogether(f, LiveValues(f, s), LiveValues(f, t));
      FieldsTogether(fields, a, b, i + 1);
    }
  }

  lemma {:induction false} MessageTogether(fields: seq<Field>, a: seq<Slot>, b: seq<Slot>)
    requires EncodableMessage(fields, a) && EncodableMessage(fields, b) && Alike(fields, a, b)
    ensures Ser(fields, a) == Ser(fields, b)
    decreases fields, 4
  {
    FieldsTogether(fields, a, b, 0);
  }

  // ---------------------------------------------------------------- the laws

  /** Of all structs the encoder accepts, exactly those with alike items in every field encode to the same bytes. */
  lemma SameBytesExactly(fields: seq<Field>, a: seq<Slot>, b: seq<Slot>)
    requires EncodableMessage(fields, a) && EncodableMessage(fields, b)
    ensures Ser(fields, a) == Ser(fields, b) <==> Alike(fields, a, b)
  {
    if Ser(fields, a) == Ser(fields, b) { MessageApart(fields, a, b); }
    if Alike(fields, a, b) { MessageTogether(fields, a, b); }
  }

  /** Where `which_` words are in order this is standing for the same message. */
  lemma AlikeIsSame(fields: seq<Field>, a: seq<Slot>, b: seq<Slot>)
    requires WellFormed(fields, a) && WellFormed(fields, b) && Proper(fields, a) && Proper(fields, b)
    ensures Alike(fields, a, b) <==> Same(fields, a, b)
  {
    SameBytesExactly(fields, a, b);
    EncodingIsInjective(fields, a, b);
  }

  /** Where they are not it need not be: two structs for the same message, one encoded to nothing, the other not. */
  lemma StrayWhichIsEncoded(inner: seq<Field>, outer: seq<Field>, a: seq<Slot>, b: seq<Slot>)
    requires inner == [Field(1, Bool, Oneof, 4, -4, 1, 0, [], None)]
    requires outer == [Field(1, Submessage, Optional, 0, 0, 8, 0, inner, None)]
    requires a == [Single(MessageV([Union(0, BoolV(false))]))] && b == [Single(MessageV([Union(2, BoolV(false))]))]
    ensures WellFormed(outer, a) && WellFormed(outer, b) && Same(outer, b, a)
    ensures Ser(outer, a) == [] && Ser(outer, b) != []
  {
    var f, g := outer[0], inner[0];
    var s, t := a[0].v.slots, b[0].v.slots;
    OneField(g);
    OneField(f);
    assert Selected(inner, 0, 0) == Selected(inner, 0, 2) == None;
    UnsetUnion(inner, s);
    UnsetUnion(inner, t);
    hide WellFormed;
    assert Same(inner, t, s) && Same(outer, b, a) by { BothUnset(inner, outer, t[0], s[0]); }
    EmptySubmessage(outer, a);
    EmptySubmessage(outer, b);
    KeyIsThere(1, WT_STRING);
  }

  lemma BothUnset(inner: seq<Field>, outer: seq<Field>, s: Slot, t: Slot)
    requires |inner| == |outer| == 1 && outer[0].ltype == Submessage && outer[0].sub == inner
    requires s.Union? && t.Union? && s.which != 0 && Selected(inner, 0, s.which) == Selected(inner, 0, t.which) == None
    ensures Same(inner, [s], [t]) && Same(outer, [Single(MessageV([s]))], [Single(MessageV([t]))])
  {
    assert SameSlot(inner, 0, s, t) && Same(inner, [s], [t]);
    assert SameSlot(outer, 0, Single(MessageV([s])), Single(MessageV([t])));
  }

  lemma OneField(f: Field)
    requires f.sub != [] ==> ValidFields(f.sub)
    requires ValidFields(f.sub) ==> ValidField(f)
    requires !f.InUnion()
    ensures ValidFields([f])
  {
    assert ValidFields(f.sub);
    assert forall i | 0 <= i < |[f]| :: [f][i] == f;
  }

  lemma OneEntry(fields: seq<Field>, a: seq<Slot>)
    requires |fields| == |a| == 1
    ensures Ser(fields, a) == SerSlot(fields[0], a[0])
  {
    hide SerSlot;
    assert SlotOf(fields, 0) == 0 && SerFrom(fields, a, 1) == [];
    assert SerSlot(fields[0], a[0]) + [] == SerSlot(fields[0], a[0]);
  }

  lemma OneWellFormed(fields: seq<Field>, a: seq<Slot>)
    requires ValidFields(fields) && |fields| == |a| == 1
    requires ShapedSlot(fields, 0, a[0]) && EncodableSlot(fields[0], a[0]) && DecodableSlot(fields[0], a[0])
    ensures WellFormed(fields, a)
  {
    hide ValidFields, ShapedSlot, EncodableSlot, ShortSlot, TerminatedSlot;
    assert SlotOf(fields, 0) == 0;
  }

  /** Nothing of a union is encoded unless its `which_` word is the member's tag. */
  lemma UnsetUnion(inner: seq<Field>, s: seq<Slot>)
    requires ValidFields(inner) && |inner| == |s| == 1 && inner[0].htype == Oneof
    requires s[0].Union? && s[0].which != inner[0].tag && Selected(inner, 0, s[0].which).None?
    ensures WellFormed(inner, s) && Ser(inner, s) == []
  {
    var f := inner[0];
    assert SlotOf(inner, 0) == 0 && LiveValues(f, s[0]) == [];
    assert ShapedSlot(inner, 0, s[0]) && EncodableSlot(f, s[0]) && DecodableSlot(f, s[0]);
    OneWellFormed(inner, s);
    OneEntry(inner, s);
  }

  /** A submessage of one unset union is left out exactly when the `which_` word is 0. */
  lemma EmptySubmessage(outer: seq<Field>, a: seq<Slot>)
    requires ValidFields(outer) && |outer| == |a| == 1 && outer[0].ltype == Submessage && outer[0].Singular()
    requires a[0].Single? && a[0].v.MessageV?
    requires var inner, slots := outer[0].sub, a[0].v.slots;
             && WellFormed(inner, slots) && Ser(inner, slots) == []
             && |inner| == |slots| == 1 && inner[0].htype == Oneof && slots[0].Union?
    ensures WellFormed(outer, a)
    ensures Ser(outer, a) == if a[0].v.slots[0].which == 0 then [] else Key(outer[0].tag, WT_STRING) + Prefixed([])
  {
    var f, v := outer[0], a[0].v;
    assert ShapedValue(f, v) && EncodableValue(f, v) && DecodableValue(f, v);
    assert SlotOf(outer, 0) == 0;
    assert ShapedSlot(outer, 0, a[0]) && EncodableSlot(f, a[0]) && ShortSlot(f, a[0]) && TerminatedSlot(f, a[0]);
    OneWellFormed(outer, a);
    OneEntry(outer, a);
    DefaultByWhich(f, v.slots);
    assert IsDefault(f, a[0]) <==> IsDefaultValue(f, v);
    assert SerValue(f, v) == Prefixed([]);
  }

  lemma {:induction false} DefaultByWhich(f: Field, slots: seq<Slot>)
    requires |f.sub| == |slots| == 1 && f.sub[0].htype == Oneof && slots[0].Union?
    ensures IsDefaultValue(f, MessageV(slots)) <==> slots[0].which == 0
  {
    assert IsDefault(f.sub[0], slots[SlotOf(f.sub, 0)]) <==> slots[0].which == 0;
  }
}
