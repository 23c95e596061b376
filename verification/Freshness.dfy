/** Structs as pb_message_set_to_defaults leaves them. */
module Freshness {
  import opened Descriptor
  import opened Options
  import opened Serialize
  import opened Equivalence

  predicate FreshValue(f: Field, v: Value)
    decreases f, 0
  {
    if f.ltype == Submessage then v.MessageV? && Fresh(f.sub, v.slots)
    else v == if f.init.Some? then f.init.value else ZeroValue(f)
  }

  predicate FreshSlot(fields: seq<Field>, h: nat, s: Slot)
    requires h < |fields|
    decreases fields, 0
  {
    && ShapedSlot(fields, h, s)
    && match s
       case Single(v) => FreshValue(fields[h], v)
       case Has(has, v) => !has && FreshValue(fields[h], v)
       case Counted(count, _) => count == 0
       case Array(_) => true
       case Union(which, _) => which == 0
       case Shared => true
  }

  predicate Fresh(fields: seq<Field>, slots: seq<Slot>)
    decreases fields, 1
  {
    && |slots| == |fields|
    && forall h | 0 <= h < |fields| :: FreshSlot(fields, h, slots[h])
  }

  /** Single data that decoding relies on: submessages, which are merged into, and proto3 fields, which may be left out. */
  predicate ReceptiveValue(f: Field, v: Value)
    decreases f, 0
  {
    if f.ltype == Submessage then v.MessageV? && Receptive(f.sub, v.slots)
    else f.Singular() ==> v == ZeroValue(f)
  }

  predicate ReceptiveSlot(fields: seq<Field>, h: nat, s: Slot)
    requires h < |fields|
    decreases fields, 0
  {
    && ShapedSlot(fields, h, s)
    && match s
       case Single(v) => ReceptiveValue(fields[h], v)
       case Has(has, v) => !has && ReceptiveValue(fields[h], v)
       case Counted(count, _) => count == 0
       case Array(_) => true
       case Union(which, _) => which == 0
       case Shared => true
  }

  /** A struct into which a message can be decoded as if it were fresh; other data may be anything. */
  predicate Receptive(fields: seq<Field>, slots: seq<Slot>)
    decreases fields, 1
  {
    && |slots| == |fields|
    && forall h | 0 <= h < |fields| :: ReceptiveSlot(fields, h, slots[h])
  }

  lemma {:induction false} FreshValueIsReceptive(f: Field, v: Value)
    requires ValidField(f) && FreshValue(f, v)
    ensures ReceptiveValue(f, v)
    decreases f
  {
    if f.ltype == Submessage { FreshIsReceptive(f.sub, v.slots); }
  }

  lemma {:induction false} FreshIsReceptive(fields: seq<Field>, slots: seq<Slot>)
    requires ValidFields(fields) && Fresh(fields, slots)
    ensures Receptive(fields, slots)
    decreases fields
  {
    forall h | 0 <= h < |fields| ensures ReceptiveSlot(fields, h, slots[h]) {
      assert ValidField(fields[h]) && FreshSlot(fields, h, slots[h]);
      match slots[h]
      case Single(v) => FreshValueIsReceptive(fields[h], v);
      case Has(_, v) => FreshValueIsReceptive(fields[h], v);
      case _ =>
    }
  }

  lemma FreshIsShaped(fields: seq<Field>, slots: seq<Slot>)
    requires Fresh(fields, slots)
    ensures Shaped(fields, slots)
  {
    forall h | 0 <= h < |fields| ensures ShapedSlot(fields, h, slots[h]) { assert FreshSlot(fields, h, slots[h]); }
  }

  lemma {:induction false} ZeroIsShaped(f: Field)
    requires ValidField(f)
    ensures ShapedValue(f, ZeroValue(f))
    decreases f
  {
    if f.ltype == Submessage {
      ZeroStructIsShaped(f.sub);
    }
  }

  /** memset to zero gives every field a value of its own type. */
  lemma {:induction false} ZeroStructIsShaped(fields: seq<Field>)
    requires ValidFields(fields)
    ensures Shaped(fields, ZeroSlots(fields))
    decreases fields
  {
    forall h | 0 <= h < |fields| ensures ShapedSlot(fields, h, ZeroSlots(fields)[h]) {
      assert ValidField(fields[h]);
      ZeroIsShaped(fields[h]);
      if fields[h].htype == Oneof { NoMemberZero(fields, h); }
    }
  }

  /** No member has tag 0, so a union with `which_` 0 is unset. */
  lemma NoMemberZero(fields: seq<Field>, h: nat)
    requires ValidFields(fields) && h < |fields|
    ensures Selected(fields, h, 0) == None
  {
    assert forall j | 0 <= j < |fields| :: ValidField(fields[j]) && fields[j].tag != 0;
  }

  lemma {:induction false} DefaultIsFresh(f: Field, v: Value)
    requires ValidField(f) && ShapedValue(f, v)
    ensures FreshValue(f, DefaultValue(f, v)) && ShapedValue(f, DefaultValue(f, v))
    decreases f
  {
    if f.ltype == Submessage {
      DefaultsAreFresh(f.sub, v.slots);
    } else {
      ZeroIsShaped(f);
    }
  }

  /** pb_message_set_to_defaults, from any struct of the right type. */
  lemma {:induction false} DefaultsAreFresh(fields: seq<Field>, slots: seq<Slot>)
    requires ValidFields(fields) && Shaped(fields, slots)
    ensures Fresh(fields, Defaults(fields, slots)) && Shaped(fields, Defaults(fields, slots))
    ensures Receptive(fields, Defaults(fields, slots))
    decreases fields, 1
  {
    var d := Defaults(fields, slots);
    forall h | 0 <= h < |fields| ensures FreshSlot(fields, h, d[h]) {
      assert ShapedSlot(fields, h, slots[h]) && ValidField(fields[h]);
      assert d[h] == DefaultSlot(fields[h], slots[h]);
      DefaultSlotIsFresh(fields, h, slots[h]);
    }
    FreshIsShaped(fields, d);
    FreshIsReceptive(fields, d);
  }

  lemma {:induction false} DefaultSlotIsFresh(fields: seq<Field>, h: nat, s: Slot)
    requires ValidFields(fields) && h < |fields| && ValidField(fields[h]) && ShapedSlot(fields, h, s)
    ensures FreshSlot(fields, h, DefaultSlot(fields[h], s))
    decreases fields, 0
  {
    var f := fields[h];
    if SlotOf(fields, h) == h {
      match f.htype
      case Required => DefaultIsFresh(f, s.v);
      case Optional => DefaultIsFresh(f, s.v);
      case Repeated =>
        var d := DefaultSlot(f, s);
        assert d == if f.FixedCount() then s else Counted(0, s.items);
      case Oneof => NoMemberZero(fields, h);
    }
  }

  lemma FreshMemberIsFresh(f: Field)
    requires ValidField(f)
    ensures ShapedValue(f, FreshMember(f)) && (f.ltype == Submessage ==> Fresh(f.sub, FreshMember(f).slots))
    ensures f.ltype == Submessage ==> Receptive(f.sub, FreshMember(f).slots)
  {
    if f.ltype == Submessage {
      ZeroStructIsShaped(f.sub);
      DefaultsAreFresh(f.sub, ZeroSlots(f.sub));
    } else {
      ZeroIsShaped(f);
    }
  }

  // ---------------------------------------------------------------- proto3 omission

  /** A single proto3 value that counts as default stands for the same as the value a fresh struct holds. */
  lemma {:induction false} DefaultSingular(f: Field, v: Value, d: Value)
    requires ValidField(f) && ShapedValue(f, v) && IsDefaultValue(f, v)
    requires if f.ltype == Submessage then d.MessageV? && Receptive(f.sub, d.slots) else d == ZeroValue(f)
    ensures SameValue(f, v, d)
    decreases f, 0
  {
    match f.ltype
    case Submessage => DefaultMessage(f.sub, v.slots, d.slots);
    case _ =>
  }

  /**
   A proto3 field that the encoder leaves out because it is default stands for the same message as the
   default struct the decoder starts from, through any depth of submessages.
   */
  lemma {:induction false} DefaultMessage(fields: seq<Field>, slots: seq<Slot>, d: seq<Slot>)
    requires ValidFields(fields) && Shaped(fields, slots) && Receptive(fields, d)
    requires forall h | 0 <= h < |fields| :: IsDefault(fields[h], slots[SlotOf(fields, h)])
    ensures Same(fields, slots, d)
    decreases fields, 1
  {
    forall h | 0 <= h < |fields| ensures SameSlot(fields, h, slots[h], d[h]) {
      var f := fields[h];
      assert ValidField(f) && ShapedSlot(fields, h, slots[h]) && ReceptiveSlot(fields, h, d[h]);
      assert IsDefault(f, slots[SlotOf(fields, h)]);
      if SlotOf(fields, h) == h {
        if f.Singular() {
          assert ReceptiveValue(f, d[h].v);
          DefaultSingular(f, slots[h].v, d[h].v);
        }
      }
    }
  }
}
