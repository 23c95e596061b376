/** Which fields the encoder leaves out: exactly those with nothing in them, and no others. */
module Omission {
  import opened Descriptor
  import opened Varints
  import opened Serialize
  import opened Equivalence
  import opened RoundTrip
  import opened Packing
  import opened SameBytes

  // ---------------------------------------------------------------- nothing in it

  /** A value that stands for the same as zero; fixed-length bytes never do, unless there are none. */
  predicate Nothing(f: Field, v: Value)
    decreases f, 0
  {
    if f.ltype == Submessage then v.MessageV? && NothingIn(f.sub, v.slots)
    else if f.ltype == FixedLengthBytes then f.dataSize == 0
    else SameValue(f, v, ZeroValue(f))
  }

  /** No required field, no present optional, no counted item, no fixed-count array, no set union. */
  predicate NothingInSlot(f: Field, s: Slot)
    decreases f, 1
  {
    match s
    case Single(v) => f.htype != Required && Nothing(f, v)
    case Has(has, _) => !has
    case Counted(count, _) => count == 0
    case Array(_) => false
    case Union(which, _) => which == 0
    case Shared => true
  }

  predicate NothingIn(fields: seq<Field>, slots: seq<Slot>)
    decreases fields
  {
    && |slots| == |fields|
    && forall i | 0 <= i < |fields| :: NothingInSlot(fields[i], slots[SlotOf(fields, i)])
  }

  // ---------------------------------------------------------------- the test for defaults

  lemma {:induction false} DefaultValueExactly(f: Field, v: Value)
    requires ValidField(f) && ShapedValue(f, v)
    ensures IsDefaultValue(f, v) <==> Nothing(f, v)
    decreases f, 0
  {
    match f.ltype
    case Submessage => DefaultStructExactly(f, v);
    case String => NoText(v.buf, f.dataSize);
    case Bytes => NoBytes(v, ZeroValue(f));
    case _ =>
  }

  lemma NoText(buf: bytes, n: nat)
    requires |buf| == n > 0
    ensures CString(buf) == CString(Zeros(n)) <==> buf[0] == 0
  {
    assert Zeros(n)[0] == 0;
  }

  lemma NoBytes(v: Value, zero: Value)
    requires v.BytesV? && zero.BytesV? && zero.size == 0
    ensures v.size == zero.size ==> v.buf[..0] == zero.buf[..0]
  {
  }

  lemma {:induction false} DefaultStructExactly(f: Field, v: Value)
    requires ValidField(f) && ShapedValue(f, v) && f.ltype == Submessage
    ensures IsDefaultValue(f, v) <==> NothingIn(f.sub, v.slots)
    decreases f.sub, 2
  {
    forall i | 0 <= i < |f.sub|
      ensures IsDefault(f.sub[i], v.slots[SlotOf(f.sub, i)]) <==> NothingInSlot(f.sub[i], v.slots[SlotOf(f.sub, i)])
    {
      ShapedFits(f.sub, v.slots, i);
      DefaultExactly(f.sub[i], v.slots[SlotOf(f.sub, i)]);
    }
  }

  /** The encoder's test for defaults finds exactly the fields with nothing in them. */
  lemma {:induction false} DefaultExactly(f: Field, s: Slot)
    requires ValidField(f) && SlotFits(f, s)
    ensures IsDefault(f, s) <==> NothingInSlot(f, s)
    decreases f, 1
  {
    if s.Single? { DefaultValueExactly(f, s.v); }
  }

  // ---------------------------------------------------------------- bytes

  /** There is nothing in the field, or its union holds another member; an array of no items is nothing too. */
  predicate Absent(f: Field, s: Slot) {
    match s
    case Union(which, _) => which != f.tag
    case Array(items) => items == []
    case _ => NothingInSlot(f, s)
  }

  lemma PutNothing(f: Field, x: seq<Value>)
    ensures Put(f, x) == [] <==> x == []
  {
    hide Enc, SerValue, SerItems;
    if x != [] {
      KeyIsThere(f.tag, WT_STRING);
      KeyIsThere(f.tag, WireType(f));
    }
  }

  /** A field puts out nothing exactly when it is absent. */
  lemma LeftOutExactly(f: Field, s: Slot)
    requires ValidField(f) && SlotFits(f, s) && EncodableSlot(f, s)
    ensures SerSlot(f, s) == [] <==> Absent(f, s)
  {
    SlotPut(f, s);
    PutNothing(f, LiveValues(f, s));
    DefaultExactly(f, s);
    hide SerSlot, Put;
  }

  /** A proto3 field that is no submessage is left out exactly when it stands for zero. */
  lemma SingularLeftOut(f: Field, v: Value)
    requires ValidField(f) && f.Singular() && ShapedValue(f, v) && f.ltype != Submessage
    requires EncodableSlot(f, Single(v))
    ensures SerSlot(f, Single(v)) == []
       <==> SameValue(f, v, ZeroValue(f)) && (f.ltype == FixedLengthBytes ==> f.dataSize == 0)
  {
    LeftOutExactly(f, Single(v));
    assert Absent(f, Single(v)) <==> Nothing(f, v);
    if f.ltype == FixedLengthBytes && f.dataSize == 0 {
      assert v.buf == Zeros(0);
      assert v == ZeroValue(f) && SameValue(f, v, v);
    }
  }
}
