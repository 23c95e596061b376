/** The decoder never puts a value into a struct that its C type cannot hold. */
module Shapes {
  import opened Bits
  import opened Descriptor
  import opened Varints
  import opened Serialize
  import opened Deserialize
  import opened Freshness

  lemma WordBound(s: bytes)
    ensures |s| == 4 ==> FromLittleEndian(s) < U32
    ensures |s| == 8 ==> FromLittleEndian(s) < U64
  {
    if |s| == 4 {
      WordBoundFrom(s, 4);
      var k := 32;
      ShlTable(1, k);
    }
    if |s| == 8 {
      WordBoundFrom(s, 8);
      var k := 64;
      ShlTable(1, k);
    }
  }

  lemma {:induction false} WordBoundFrom(s: bytes, n: nat)
    requires |s| == n
    ensures FromLittleEndian(s) < Pow2(8 * n)
  {
    if n > 0 {
      WordBoundFrom(s[1..], n - 1);
      Shl7(1, 8 * n - 8);
    }
  }

  lemma {:induction false} ValueShaped(f: Field, was: Value, s: bytes)
    requires ValidField(f) && ShapedValue(f, was) && DecValue(f, was, s).Ok?
    ensures ShapedValue(f, DecValue(f, was, s).value)
    decreases f, 0
  {
    match f.ltype
    case Fixed32 => WordBound(Take(4, s).value);
    case Fixed64 => WordBound(Take(8, s).value);
    case Submessage =>
      var start := if f.htype == Repeated then Defaults(f.sub, was.slots) else was.slots;
      if f.htype == Repeated { DefaultsAreFresh(f.sub, was.slots); }
      DecodeShaped(f.sub, start, Window(s).value);
    case _ =>
  }

  lemma {:induction false} ItemShaped(f: Field, a: Filled, s: bytes)
    requires ValidField(f) && (forall k | 0 <= k < |a.items| :: ShapedValue(f, a.items[k]))
    requires DecItem(f, a, s).Ok?
    ensures forall k | 0 <= k < |a.items| :: ShapedValue(f, DecItem(f, a, s).value.items[k])
    decreases f, 1
  {
    ValueShaped(f, a.items[a.count], s);
  }

  lemma {:induction false} PackedShaped(f: Field, a: Filled, w: bytes)
    requires ValidField(f) && (forall k | 0 <= k < |a.items| :: ShapedValue(f, a.items[k]))
    requires DecPacked(f, a, w).Some?
    ensures forall k | 0 <= k < |a.items| :: ShapedValue(f, DecPacked(f, a, w).value.items[k])
    decreases f, 2, |w|, f.arraySize - a.count
  {
    if w != [] {
      ItemShaped(f, a, w);
      PackedShaped(f, DecItem(f, a, w).value, DecItem(f, a, w).rest);
    }
  }

  lemma {:induction false} RepeatedShaped(f: Field, a: Filled, wireType: nat, s: bytes)
    requires ValidField(f) && (forall k | 0 <= k < |a.items| :: ShapedValue(f, a.items[k]))
    requires DecRepeated(f, a, wireType, s).Ok?
    ensures forall k | 0 <= k < |a.items| :: ShapedValue(f, DecRepeated(f, a, wireType, s).value.items[k])
    decreases f, 3
  {
    if wireType == WT_STRING && f.Packable() {
      PackedShaped(f, a, Window(s).value);
    } else {
      ItemShaped(f, a, s);
    }
  }

  lemma {:induction false} SlotShaped(fields: seq<Field>, i: nat, slot: Slot, fixedCount: nat, wireType: nat, s: bytes)
    requires ValidFields(fields) && i < |fields| && ShapedSlot(fields, SlotOf(fields, i), slot)
    requires DecSlot(fields[i], slot, fixedCount, wireType, s).Ok?
    ensures ShapedSlot(fields, SlotOf(fields, i), DecSlot(fields[i], slot, fixedCount, wireType, s).value.0)
    decreases fields, 0
  {
    var f := fields[i];
    SlotOfOneof(fields, i);
    FindOwnTag(fields, i);
    assert ValidField(f);
    match f.htype
    case Required => ValueShaped(f, slot.v, s);
    case Optional => ValueShaped(f, slot.v, s);
    case Repeated =>
      var a := if f.FixedCount() then Filled(slot.items, fixedCount) else Filled(slot.items, slot.count);
      RepeatedShaped(f, a, wireType, s);
    case Oneof =>
      FreshMemberIsFresh(f);
      ValueShaped(f, if slot.which == f.tag then slot.v else FreshMember(f), s);
  }

  lemma {:induction false} StepShaped(fields: seq<Field>, st: State, s: bytes)
    requires ValidFields(fields) && Shaped(fields, st.slots) && Step(fields, st, s).Next?
    ensures Shaped(fields, Step(fields, st, s).st.slots)
    decreases fields, 1
  {
    var key := Dec32(s).value;
    match FindTag(fields, key / 8)
    case None =>
    case Some(i) =>
      var h := SlotOf(fields, i);
      var st1 := EnterFixed(fields, st, i).value;
      assert ShapedSlot(fields, h, st.slots[h]);
      SlotShaped(fields, i, st.slots[h], st1.fixedCount, key % 8, Dec32(s).rest);
  }

  lemma {:induction false} RunShaped(fields: seq<Field>, st: State, s: bytes)
    requires ValidFields(fields) && Shaped(fields, st.slots) && Run(fields, st, s).Done?
    ensures Shaped(fields, Run(fields, st, s).st.slots)
    decreases fields, 2, |s|
  {
    if s != [] {
      match Step(fields, st, s)
      case Next(st', r) =>
        StepShaped(fields, st, s);
        RunShaped(fields, st', r);
      case _ =>
    }
  }

  /** Whatever the input, a decoded struct still matches its descriptor. */
  lemma {:induction false} DecodeShaped(fields: seq<Field>, slots: seq<Slot>, s: bytes)
    requires ValidFields(fields) && Shaped(fields, slots) && DecodeNoinit(fields, slots, s).Ok?
    ensures Shaped(fields, DecodeNoinit(fields, slots, s).value)
    decreases fields, 3
  {
    RunShaped(fields, Start(slots), s);
  }
}
