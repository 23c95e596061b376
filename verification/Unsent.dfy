/** When exactly a decoded struct can be encoded and read back: the fixed-count arrays that were not sent decide. */
module Unsent {
  import opened Descriptor
  import opened Options
  import opened Varints
  import opened Serialize
  import opened Deserialize
  import opened Freshness
  import opened RoundTrip
  import opened Shapes
  import opened Turns
  import opened Bounds

  // ---------------------------------------------------------------- one slot through a run

  /** How many items of a fixed-count array have been decoded since it was last entered. */
  function Received(fields: seq<Field>, st: State, h: nat, sent: bool): nat
    requires h < |st.slots| && st.slots[h].Array?
  {
    if st.fixedField == Some(h) then st.fixedCount else if sent then |st.slots[h].items| else 0
  }

  /** The slot fits as far as it has been decoded; of other items of fixed-count arrays only their own arrays do. */
  predicate SoFar(d: Demand, fields: seq<Field>, st: State, h: nat, sent: bool)
    requires h < |fields| == |st.slots|
  {
    && ShapedSlot(fields, h, st.slots[h])
    && if fields[h].FixedCount() then
         && st.slots[h].Array?
         && ItemsKept(d, fields[h], Filled(st.slots[h].items, Received(fields, st, h, sent)), false)
       else HeldSlot(d, fields, h, st.slots[h]) && FitsSlot(d, fields, h, st.slots[h])
  }

  /** Only members of a union are kept in the slot of another entry. */
  lemma OwnSlot(fields: seq<Field>, i: nat, h: nat)
    requires i < |fields| && h < |fields| && SlotOf(fields, i) == h && fields[h].htype != Oneof
    ensures i == h
  {
    SlotOfOneof(fields, i);
  }

  /** A turn on another slot. */
  lemma OtherTurn(d: Demand, fields: seq<Field>, st: State, i: nat, wireType: nat, s: bytes, h: nat, sent: bool)
    requires ValidFields(fields) && i < |fields| && h < |fields| == |st.slots| && SlotOf(fields, i) != h
    requires SoFar(d, fields, st, h, sent) && KnownField(fields, st, i, wireType, s).Next?
    ensures var st' := KnownField(fields, st, i, wireType, s).st;
            |st'.slots| == |fields| && st'.slots[h] == st.slots[h] && SoFar(d, fields, st', h, sent)
  {
    hide DecValue, DecRepeated, ShapedValue, HeldValue, FitsValue, ValidFields, HeldSlot, FitsSlot;
    var st' := KnownField(fields, st, i, wireType, s).st;
    if fields[h].FixedCount() {
      assert SlotOf(fields, h) == h && i != h;
      if fields[i].FixedCount() {
        assert st'.fixedField == Some(i);
      } else {
        OtherSlot(fields[i], st.slots[SlotOf(fields, i)], st.fixedCount, 0, wireType, s);
        assert st'.fixedField == st.fixedField && st'.fixedCount == st.fixedCount;
      }
    }
  }

  /** A turn on this slot. */
  lemma OwnTurn(d: Demand, fields: seq<Field>, st: State, i: nat, wireType: nat, s: bytes, h: nat, sent: bool)
    requires ValidFields(fields) && Sane(d, fields) && i < |fields| == |st.slots|
    requires h < |fields| && SlotOf(fields, i) == h
    requires SoFar(d, fields, st, h, sent) && KnownField(fields, st, i, wireType, s).Next?
    ensures var st' := KnownField(fields, st, i, wireType, s).st;
            |st'.slots| == |fields| && SoFar(d, fields, st', h, true)
  {
    hide DecValue, DecRepeated, ShapedValue, HeldValue, FitsValue, HeldSlot, FitsSlot;
    var slot, n := st.slots[h], EnterFixed(fields, st, i).value.fixedCount;
    SlotShaped(fields, i, slot, n, wireType, s);
    if fields[h].FixedCount() {
      OwnSlot(fields, i, h);
      assert ValidField(fields[i]) && SaneField(d, fields[i]);
      RepeatedKept(d, fields[i], Filled(slot.items, n), false, wireType, s);
    } else {
      SlotKept(d, fields, i, slot, n, wireType, s);
    }
  }

  lemma SlotThroughTurn(d: Demand, fields: seq<Field>, st: State, s: bytes, h: nat, sent: bool)
    requires ValidFields(fields) && Sane(d, fields) && h < |fields| == |st.slots|
    requires SoFar(d, fields, st, h, sent) && Step(fields, st, s).Next?
    ensures var st' := Step(fields, st, s).st;
            && |st'.slots| == |fields|
            && SoFar(d, fields, st', h, sent || Dec32(s).value / 8 == fields[h].tag)
            && (fields[h].FixedCount() && Dec32(s).value / 8 != fields[h].tag ==> st'.slots[h] == st.slots[h])
  {
    hide KnownField, Skip, ShapedSlot, ItemsKept, HeldSlot, FitsSlot, Sane;
    var key, r := Dec32(s).value, Dec32(s).rest;
    match FindTag(fields, key / 8)
    case None =>
    case Some(i) =>
      if SlotOf(fields, i) == h {
        OwnTurn(d, fields, st, i, key % 8, r, h, sent);
        if fields[h].FixedCount() { OwnSlot(fields, i, h); }
      } else {
        OtherTurn(d, fields, st, i, key % 8, r, h, sent);
      }
  }

  lemma {:induction false} SlotThroughRun(d: Demand, fields: seq<Field>, st: State, s: bytes, h: nat, sent: bool)
    requires ValidFields(fields) && Sane(d, fields) && h < |fields| == |st.slots|
    requires SoFar(d, fields, st, h, sent) && Run(fields, st, s).Done?
    ensures var st', tags := Run(fields, st, s).st, Tags(fields, st, s);
            && |st'.slots| == |fields|
            && SoFar(d, fields, st', h, sent || fields[h].tag in tags)
            && (fields[h].FixedCount() && fields[h].tag !in tags ==> st'.slots[h] == st.slots[h])
    decreases |s|
  {
    hide Step, SoFar, ValidFields, Sane, Dec32;
    if s != [] && Step(fields, st, s).Next? {
      TurnHasKey(fields, st, s);
      SlotThroughTurn(d, fields, st, s, h, sent);
      var st', r, tag := Step(fields, st, s).st, Step(fields, st, s).rest, Dec32(s).value / 8;
      SlotThroughRun(d, fields, st', r, h, sent || tag == fields[h].tag);
      assert Tags(fields, st, s) == [tag] + Tags(fields, st', r);
    }
  }

  // ---------------------------------------------------------------- the law

  predicate HeldBelowSlot(d: Demand, fields: seq<Field>, h: nat, s: Slot)
    requires h < |fields|
  {
    if s.Array? then forall k | 0 <= k < |s.items| :: HeldValue(d, fields[h], s.items[k])
    else HeldSlot(d, fields, h, s)
  }

  /** `Held`, but for the items of the struct's own fixed-count arrays, which may be anything. */
  predicate HeldBelow(d: Demand, fields: seq<Field>, slots: seq<Slot>) {
    |slots| == |fields| && forall h | 0 <= h < |fields| :: HeldBelowSlot(d, fields, h, slots[h])
  }

  /** Such an item can be encoded and read back. */
  predicate Readable(f: Field, v: Value) {
    EncodableValue(f, v) && TerminatedValue(f, v)
  }

  predicate ReadableItems(f: Field, s: Slot) {
    s.Array? && forall k | 0 <= k < |s.items| :: Readable(f, s.items[k])
  }

  lemma SlotAtStart(d: Demand, fields: seq<Field>, dest: seq<Slot>, h: nat)
    requires ValidFields(fields) && Sane(d, fields) && h < |fields|
    requires Shaped(fields, dest) && HeldBelow(d, fields, dest)
    ensures SoFar(d, fields, Start(Defaults(fields, dest)), h, false)
    ensures fields[h].FixedCount() ==> Defaults(fields, dest)[h] == dest[h]
  {
    var f, s := fields[h], dest[h];
    DefaultsAreFresh(fields, dest);
    assert ValidField(f) && SaneField(d, f) && ShapedSlot(fields, h, s) && HeldBelowSlot(d, fields, h, s);
    assert Defaults(fields, dest)[h] == DefaultSlot(f, s) && ShapedSlot(fields, h, Defaults(fields, dest)[h]);
    if f.FixedCount() {
      assert SlotOf(fields, h) == h && s.Array?;
    } else {
      DefaultSlotKept(d, fields, h, s);
    }
  }

  /** At the end a slot fits, or it is a fixed-count array that was not sent and is as the destination had it. */
  lemma SlotAtEnd(d: Demand, fields: seq<Field>, dest: seq<Slot>, s: bytes, h: nat)
    requires ValidFields(fields) && Sane(d, fields) && h < |fields|
    requires Shaped(fields, dest) && HeldBelow(d, fields, dest)
    requires Decode(fields, dest, s).Ok?
    ensures var m := Decode(fields, dest, s).value;
            && |m| == |fields|
            && if fields[h].FixedCount() && fields[h].tag !in Tags(fields, Start(Defaults(fields, dest)), s)
               then m[h] == dest[h] else FitsSlot(d, fields, h, m[h])
  {
    var start := Start(Defaults(fields, dest));
    SlotAtStart(d, fields, dest, h);
    SlotThroughRun(d, fields, start, s, h, false);
    var st, sent := Run(fields, start, s).st, fields[h].tag in Tags(fields, start, s);
    hide Run, Tags;
    assert SoFar(d, fields, st, h, sent) && FixedDone(fields, st);
    if fields[h].FixedCount() && sent { AllReceived(d, fields, st, h); }
  }

  lemma AllReceived(d: Demand, fields: seq<Field>, st: State, h: nat)
    requires h < |fields| == |st.slots| && fields[h].FixedCount() && FixedDone(fields, st)
    requires SoFar(d, fields, st, h, true)
    ensures FitsSlot(d, fields, h, st.slots[h])
  {
    hide HeldValue, FitsValue;
    assert Received(fields, st, h, true) == |st.slots[h].items|;
  }

  lemma {:induction false} ArrayReadable(fields: seq<Field>, slots: seq<Slot>, i: nat)
    requires i < |fields| && |slots| == |fields| && fields[i].FixedCount() && slots[i].Array?
    ensures SlotOf(fields, i) == i
    ensures EncodableSlot(fields[i], slots[i]) && TerminatedSlot(fields[i], slots[i])
       <==> ReadableItems(fields[i], slots[i])
  {
    hide EncodableValue, TerminatedValue;
    var f, s := fields[i], slots[i];
    assert Live(s) == LiveValues(f, s) == s.items;
  }

  /**
   Whatever the bytes and the destination, the encoder accepts what was decoded, with its strings terminated, exactly
   when the destination held such items in each of its fixed-count arrays that was not sent.  Of those inside
   submessages and items it is assumed.
   */
  lemma ReadableExactly(fields: seq<Field>, dest: seq<Slot>, s: bytes)
    requires ValidFields(fields) && Sane(ReadsBack, fields)
    requires Shaped(fields, dest) && HeldBelow(ReadsBack, fields, dest)
    requires Decode(fields, dest, s).Ok?
    ensures var m, tags := Decode(fields, dest, s).value, Tags(fields, Start(Defaults(fields, dest)), s);
            Encodable(fields, m) && Terminated(fields, m)
            <==> forall i | 0 <= i < |fields| && fields[i].FixedCount() && fields[i].tag !in tags ::
                   ReadableItems(fields[i], dest[i])
  {
    var m, tags := Decode(fields, dest, s).value, Tags(fields, Start(Defaults(fields, dest)), s);
    DefaultsAreFresh(fields, dest);
    DecodeShaped(fields, Defaults(fields, dest), s);
    forall i | 0 <= i < |fields|
      ensures EncodableSlot(fields[i], m[SlotOf(fields, i)]) && TerminatedSlot(fields[i], m[SlotOf(fields, i)])
           <==> (fields[i].FixedCount() && fields[i].tag !in tags ==> ReadableItems(fields[i], dest[i]))
    {
      EntryReadable(fields, dest, s, i);
    }
    hide *;
    AllEntries(fields, m);
  }

  lemma AllEntries(fields: seq<Field>, m: seq<Slot>)
    requires |m| == |fields|
    ensures Encodable(fields, m) && Terminated(fields, m)
       <==> forall i | 0 <= i < |fields| ::
              EncodableSlot(fields[i], m[SlotOf(fields, i)]) && TerminatedSlot(fields[i], m[SlotOf(fields, i)])
  {
    hide EncodableSlot, TerminatedSlot, SlotOf;
  }

  lemma EntryReadable(fields: seq<Field>, dest: seq<Slot>, s: bytes, i: nat)
    requires ValidFields(fields) && Sane(ReadsBack, fields)
    requires Shaped(fields, dest) && HeldBelow(ReadsBack, fields, dest)
    requires Decode(fields, dest, s).Ok? && Shaped(fields, Decode(fields, dest, s).value) && i < |fields|
    ensures var m := Decode(fields, dest, s).value;
            EncodableSlot(fields[i], m[SlotOf(fields, i)]) && TerminatedSlot(fields[i], m[SlotOf(fields, i)])
            <==> (fields[i].FixedCount() && fields[i].tag !in Tags(fields, Start(Defaults(fields, dest)), s)
                  ==> ReadableItems(fields[i], dest[i]))
  {
    hide EncodableSlot, TerminatedSlot, FitsSlot, HeldBelow, Sane, Decode, Tags, Defaults;
    var m, h := Decode(fields, dest, s).value, SlotOf(fields, i);
    SlotAtEnd(ReadsBack, fields, dest, s, h);
    if fields[i].FixedCount() {
      ShapedFits(fields, dest, i);
      ShapedFits(fields, m, i);
      assert h == i;
      ArrayReadable(fields, m, i);
    }
    if FitsSlot(ReadsBack, fields, h, m[h]) {
      FitSlotIsEncodable(fields, m, i);
    } else {
      SlotOfOneof(fields, i);
      assert fields[h].FixedCount();
      OwnSlot(fields, i, h);
    }
  }
}
