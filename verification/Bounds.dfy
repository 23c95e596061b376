/** What decoding guarantees of any input: counts and lengths in bounds, and a result that encodes and decodes again. */
module Bounds {
  import opened Descriptor
  import opened Options
  import opened Varints
  import opened Serialize
  import opened Deserialize
  import opened Equivalence
  import opened Freshness
  import opened RoundTrip
  import opened Shapes

  /** That every count stays within its buffer, or all that is needed to encode a struct and decode it again. */
  datatype Demand = InBounds | ReadsBack

  predicate LeafFits(d: Demand, f: Field, v: Value) {
    match v
    case BytesV(size, buf) => size <= |buf|
    case StringV(buf) => d.ReadsBack? ==> |CString(buf)| < |buf|
    case IntV(_) => d.ReadsBack? && f.ltype in {Varint, UVarint, SVarint} ==> IntSize(f.dataSize)
    case _ => true
  }

  // ---------------------------------------------------------------- structs that fit

  predicate FitsValue(d: Demand, f: Field, v: Value)
    decreases f, 0
  {
    LeafFits(d, f, v) && (f.ltype == Submessage ==> v.MessageV? && Fits(d, f.sub, v.slots))
  }

  predicate FitsSlot(d: Demand, fields: seq<Field>, h: nat, s: Slot)
    requires h < |fields|
    decreases fields, 0
  {
    match s
    case Single(v) => FitsValue(d, fields[h], v)
    case Has(_, v) => FitsValue(d, fields[h], v)
    case Counted(count, items) => count <= |items| && forall k | 0 <= k < count :: FitsValue(d, fields[h], items[k])
    case Array(items) => forall k | 0 <= k < |items| :: FitsValue(d, fields[h], items[k])
    case Union(which, v) =>
      var j := Selected(fields, h, which);
      j.Some? ==> FitsValue(d, fields[j.value], v)
    case Shared => true
  }

  /** All but array slots past the count and data of unset unions is as demanded, down through submessages. */
  predicate Fits(d: Demand, fields: seq<Field>, slots: seq<Slot>)
    decreases fields, 1
  {
    && |slots| == |fields|
    && forall h | 0 <= h < |fields| :: FitsSlot(d, fields, h, slots[h])
  }

  // ---------------------------------------------------------------- fixed-count arrays

  predicate HeldValue(d: Demand, f: Field, v: Value)
    decreases f, 0
  {
    f.ltype == Submessage ==> v.MessageV? && Held(d, f.sub, v.slots)
  }

  predicate HeldSlot(d: Demand, fields: seq<Field>, h: nat, s: Slot)
    requires h < |fields|
    decreases fields, 0
  {
    match s
    case Single(v) => HeldValue(d, fields[h], v)
    case Has(_, v) => HeldValue(d, fields[h], v)
    case Counted(_, items) => forall k | 0 <= k < |items| :: HeldValue(d, fields[h], items[k])
    case Array(items) =>
      forall k | 0 <= k < |items| :: HeldValue(d, fields[h], items[k]) && FitsValue(d, fields[h], items[k])
    case Union(which, v) =>
      var j := Selected(fields, h, which);
      j.Some? ==> HeldValue(d, fields[j.value], v)
    case Shared => true
  }

  /**
   The items of fixed-count arrays, which setting to defaults leaves alone, are as demanded in the whole struct,
   live or not.  Of other data nothing is asked.
   */
  predicate Held(d: Demand, fields: seq<Field>, slots: seq<Slot>)
    decreases fields, 1
  {
    && |slots| == |fields|
    && forall h | 0 <= h < |fields| :: HeldSlot(d, fields, h, slots[h])
  }

  predicate NoFixedCount(fields: seq<Field>) {
    forall i | 0 <= i < |fields| :: !fields[i].FixedCount() && NoFixedCount(fields[i].sub)
  }

  lemma {:induction false} NothingHeldValue(d: Demand, f: Field, v: Value)
    requires NoFixedCount(f.sub) && ShapedValue(f, v)
    ensures HeldValue(d, f, v)
    decreases f, 0
  {
    if f.ltype == Submessage { NothingHeld(d, f.sub, v.slots); }
  }

  /** Without fixed-count arrays that is nothing at all. */
  lemma {:induction false} NothingHeld(d: Demand, fields: seq<Field>, slots: seq<Slot>)
    requires NoFixedCount(fields) && Shaped(fields, slots)
    ensures Held(d, fields, slots)
    decreases fields, 1
  {
    forall h | 0 <= h < |fields| ensures HeldSlot(d, fields, h, slots[h]) {
      var f, s := fields[h], slots[h];
      assert ShapedSlot(fields, h, s) && NoFixedCount(f.sub);
      match s
      case Single(v) => NothingHeldValue(d, f, v);
      case Has(_, v) => NothingHeldValue(d, f, v);
      case Counted(_, items) =>
        forall k | 0 <= k < |items| ensures HeldValue(d, f, items[k]) { NothingHeldValue(d, f, items[k]); }
      case Union(which, v) =>
        var j := Selected(fields, h, which);
        if j.Some? {
          assert NoFixedCount(fields[j.value].sub);
          NothingHeldValue(d, fields[j.value], v);
        }
      case _ =>
    }
  }

  // ---------------------------------------------------------------- descriptors

  predicate SaneField(d: Demand, f: Field) {
    && (f.init.Some? ==> LeafFits(d, f, f.init.value))
    && (d.ReadsBack? && f.ltype in {Varint, UVarint, SVarint} ==> IntSize(f.dataSize))
    && Sane(d, f.sub)
  }

  /** Default values are as demanded, and integers have the sizes of C integer types. */
  predicate Sane(d: Demand, fields: seq<Field>) {
    forall i | 0 <= i < |fields| :: SaneField(d, fields[i])
  }

  // ---------------------------------------------------------------- defaults

  /** An item that fits, live or not. */
  predicate Kept(d: Demand, f: Field, v: Value) {
    ShapedValue(f, v) && HeldValue(d, f, v) && FitsValue(d, f, v)
  }

  lemma ZerosAreTerminated(n: nat)
    requires n > 0
    ensures |CString(Zeros(n))| < n
  {
    assert Zeros(n)[0] == 0;
  }

  lemma {:induction false} ZeroKept(d: Demand, f: Field)
    requires ValidField(f) && SaneField(d, f)
    ensures Kept(d, f, ZeroValue(f))
    decreases f, 0
  {
    ZeroIsShaped(f);
    match f.ltype
    case String => ZerosAreTerminated(f.dataSize);
    case Submessage => ZeroStructKept(d, f.sub);
    case _ =>
  }

  lemma {:induction false} ZeroStructKept(d: Demand, fields: seq<Field>)
    requires ValidFields(fields) && Sane(d, fields)
    ensures Fits(d, fields, ZeroSlots(fields)) && Held(d, fields, ZeroSlots(fields))
    decreases fields, 1
  {
    var z := ZeroSlots(fields);
    forall h | 0 <= h < |fields| ensures FitsSlot(d, fields, h, z[h]) && HeldSlot(d, fields, h, z[h]) {
      assert ValidField(fields[h]) && SaneField(d, fields[h]);
      ZeroKept(d, fields[h]);
      NoMemberZero(fields, h);
      assert z[h] == ZeroSlot(fields, h);
      assert Kept(d, fields[h], ZeroValue(fields[h]));
    }
  }

  lemma {:induction false} DefaultKept(d: Demand, f: Field, v: Value)
    requires ValidField(f) && SaneField(d, f) && ShapedValue(f, v) && HeldValue(d, f, v)
    ensures Kept(d, f, DefaultValue(f, v))
    decreases f, 0
  {
    DefaultIsFresh(f, v);
    if f.ltype == Submessage {
      DefaultsKept(d, f.sub, v.slots);
    } else {
      ZeroKept(d, f);
    }
  }

  /** Setting to defaults makes any struct fit but for its fixed-count arrays. */
  lemma {:induction false} DefaultsKept(d: Demand, fields: seq<Field>, slots: seq<Slot>)
    requires ValidFields(fields) && Sane(d, fields) && Shaped(fields, slots) && Held(d, fields, slots)
    ensures Fits(d, fields, Defaults(fields, slots)) && Held(d, fields, Defaults(fields, slots))
    decreases fields, 1
  {
    hide FitsSlot, HeldSlot, ShapedSlot, DefaultSlot;
    var r := Defaults(fields, slots);
    forall h | 0 <= h < |fields| ensures FitsSlot(d, fields, h, r[h]) && HeldSlot(d, fields, h, r[h]) {
      assert ValidField(fields[h]) && SaneField(d, fields[h]);
      assert ShapedSlot(fields, h, slots[h]) && HeldSlot(d, fields, h, slots[h]);
      assert r[h] == DefaultSlot(fields[h], slots[h]);
      DefaultSlotKept(d, fields, h, slots[h]);
    }
  }

  lemma {:induction false} DefaultSlotKept(d: Demand, fields: seq<Field>, h: nat, s: Slot)
    requires ValidFields(fields) && h < |fields| && ValidField(fields[h]) && SaneField(d, fields[h])
    requires ShapedSlot(fields, h, s) && HeldSlot(d, fields, h, s)
    ensures var r := DefaultSlot(fields[h], s); FitsSlot(d, fields, h, r) && HeldSlot(d, fields, h, r)
    decreases fields, 0
  {
    match s
    case Single(v) => DefaultKept(d, fields[h], v);
    case Has(_, v) => DefaultKept(d, fields[h], v);
    case Union(_, _) => NoMemberZero(fields, h);
    case _ =>
  }

  lemma FreshMemberKept(d: Demand, f: Field)
    requires ValidField(f) && SaneField(d, f)
    ensures Kept(d, f, FreshMember(f))
  {
    FreshMemberIsFresh(f);
    ZeroKept(d, f);
    if f.ltype == Submessage { DefaultsKept(d, f.sub, ZeroSlots(f.sub)); }
  }

  // ---------------------------------------------------------------- decoding any bytes

  /** What is decoded over may be anything, but submessages that are merged into. */
  predicate Before(d: Demand, f: Field, was: Value) {
    && ShapedValue(f, was) && HeldValue(d, f, was)
    && (f.ltype == Submessage && f.htype != Repeated ==> FitsValue(d, f, was))
  }

  lemma TerminatorWritten(buf: bytes, data: bytes)
    requires |data| < |buf|
    ensures |CString(Overwrite(buf, data + [0]))| < |buf|
  {
    var r := Overwrite(buf, data + [0]);
    assert r[|data|] == 0;
  }

  lemma {:induction false} ValueKept(d: Demand, f: Field, was: Value, s: bytes)
    requires ValidField(f) && SaneField(d, f) && Before(d, f, was) && DecValue(f, was, s).Ok?
    ensures Kept(d, f, DecValue(f, was, s).value)
    decreases f, 0
  {
    ValueShaped(f, was, s);
    match f.ltype
    case String => TerminatorWritten(was.buf, Window(s).value);
    case Submessage =>
      var start := if f.htype == Repeated then Defaults(f.sub, was.slots) else was.slots;
      if f.htype == Repeated {
        DefaultsAreFresh(f.sub, was.slots);
        DefaultsKept(d, f.sub, was.slots);
      }
      DecodeKept(d, f.sub, start, Window(s).value);
    case _ =>
  }

  /** The items decoded so far fit; with `all`, so do the others. */
  predicate ItemsKept(d: Demand, f: Field, a: Filled, all: bool) {
    && (all || a.count <= |a.items|)
    && forall k | 0 <= k < |a.items| ::
      ShapedValue(f, a.items[k]) && HeldValue(d, f, a.items[k]) && (all || k < a.count ==> FitsValue(d, f, a.items[k]))
  }

  lemma {:induction false} ItemKept(d: Demand, f: Field, a: Filled, all: bool, s: bytes)
    requires ValidField(f) && SaneField(d, f) && f.htype == Repeated
    requires ItemsKept(d, f, a, all) && DecItem(f, a, s).Ok?
    ensures ItemsKept(d, f, DecItem(f, a, s).value, all)
    decreases f, 1
  {
    hide ValidField, SaneField, DecValue, ShapedValue, HeldValue, FitsValue;
    assert Before(d, f, a.items[a.count]);
    ValueKept(d, f, a.items[a.count], s);
  }

  lemma {:induction false} PackedKept(d: Demand, f: Field, a: Filled, all: bool, w: bytes)
    requires ValidField(f) && SaneField(d, f) && f.htype == Repeated
    requires ItemsKept(d, f, a, all) && DecPacked(f, a, w).Some?
    ensures ItemsKept(d, f, DecPacked(f, a, w).value, all)
    decreases f, 2, f.arraySize - a.count
  {
    hide ValidField, SaneField, ItemsKept;
    if w != [] {
      ItemKept(d, f, a, all, w);
      PackedKept(d, f, DecItem(f, a, w).value, all, DecItem(f, a, w).rest);
    }
  }

  lemma {:induction false} RepeatedKept(d: Demand, f: Field, a: Filled, all: bool, wireType: nat, s: bytes)
    requires ValidField(f) && SaneField(d, f) && f.htype == Repeated
    requires ItemsKept(d, f, a, all) && DecRepeated(f, a, wireType, s).Ok?
    ensures ItemsKept(d, f, DecRepeated(f, a, wireType, s).value, all)
    decreases f, 3
  {
    hide ValidField, SaneField, ItemsKept;
    if wireType == WT_STRING && f.Packable() {
      PackedKept(d, f, a, all, Window(s).value);
    } else {
      ItemKept(d, f, a, all, s);
    }
  }

  predicate KeptSlot(d: Demand, fields: seq<Field>, h: nat, s: Slot)
    requires h < |fields|
  {
    ShapedSlot(fields, h, s) && HeldSlot(d, fields, h, s) && FitsSlot(d, fields, h, s)
  }

  lemma {:induction false} SlotKept(d: Demand, fields: seq<Field>, i: nat, slot: Slot, fixedCount: nat, wireType: nat,
                                    s: bytes)
    requires ValidFields(fields) && Sane(d, fields) && i < |fields| && KeptSlot(d, fields, SlotOf(fields, i), slot)
    requires DecSlot(fields[i], slot, fixedCount, wireType, s).Ok?
    ensures KeptSlot(d, fields, SlotOf(fields, i), DecSlot(fields[i], slot, fixedCount, wireType, s).value.0)
    decreases fields, 0
  {
    var f, h := fields[i], SlotOf(fields, i);
    SlotOfOneof(fields, i);
    FindOwnTag(fields, i);
    SlotShaped(fields, i, slot, fixedCount, wireType, s);
    assert ValidField(f) && SaneField(d, f);
    match f.htype
    case Required => ValueKept(d, f, slot.v, s);
    case Optional => ValueKept(d, f, slot.v, s);
    case Repeated =>
      var a := if f.FixedCount() then Filled(slot.items, fixedCount) else Filled(slot.items, slot.count);
      RepeatedKept(d, f, a, f.FixedCount(), wireType, s);
    case Oneof =>
      FreshMemberKept(d, f);
      ValueKept(d, f, if slot.which == f.tag then slot.v else FreshMember(f), s);
  }

  /** Storing a slot that fits. */
  lemma Stored(d: Demand, fields: seq<Field>, slots: seq<Slot>, h: nat, s: Slot)
    requires h < |fields| == |slots| && Fits(d, fields, slots) && Held(d, fields, slots) && KeptSlot(d, fields, h, s)
    ensures Fits(d, fields, slots[h := s]) && Held(d, fields, slots[h := s])
  {
    hide FitsSlot, HeldSlot, ShapedSlot;
  }

  lemma {:induction false} StepKept(d: Demand, fields: seq<Field>, st: State, s: bytes)
    requires ValidFields(fields) && Sane(d, fields) && Step(fields, st, s).Next?
    requires Shaped(fields, st.slots) && Fits(d, fields, st.slots) && Held(d, fields, st.slots)
    ensures var slots := Step(fields, st, s).st.slots;
            Shaped(fields, slots) && Fits(d, fields, slots) && Held(d, fields, slots)
    decreases fields, 1
  {
    hide DecSlot, FitsSlot, HeldSlot, ShapedSlot, ValidFields, Sane;
    var key := Dec32(s).value;
    StepShaped(fields, st, s);
    match FindTag(fields, key / 8)
    case None =>
    case Some(i) =>
      var h := SlotOf(fields, i);
      var was, n := st.slots[h], EnterFixed(fields, st, i).value.fixedCount;
      assert KeptSlot(d, fields, h, was);
      SlotKept(d, fields, i, was, n, key % 8, Dec32(s).rest);
      Stored(d, fields, st.slots, h, DecSlot(fields[i], was, n, key % 8, Dec32(s).rest).value.0);
  }

  lemma {:induction false} RunKept(d: Demand, fields: seq<Field>, st: State, s: bytes)
    requires ValidFields(fields) && Sane(d, fields) && Run(fields, st, s).Done?
    requires Shaped(fields, st.slots) && Fits(d, fields, st.slots) && Held(d, fields, st.slots)
    ensures var slots := Run(fields, st, s).st.slots; Fits(d, fields, slots) && Held(d, fields, slots)
    decreases fields, 2, |s|
  {
    hide ValidFields, Sane, Shaped, Fits, Held, Step;
    if s != [] {
      match Step(fields, st, s)
      case Next(st', r) =>
        StepKept(d, fields, st, s);
        RunKept(d, fields, st', r);
      case _ =>
    }
  }

  /** Decoding any bytes into a struct that fits leaves one that fits. */
  lemma {:induction false} DecodeKept(d: Demand, fields: seq<Field>, slots: seq<Slot>, s: bytes)
    requires ValidFields(fields) && Sane(d, fields) && DecodeNoinit(fields, slots, s).Ok?
    requires Shaped(fields, slots) && Fits(d, fields, slots) && Held(d, fields, slots)
    ensures var m := DecodeNoinit(fields, slots, s).value; Fits(d, fields, m) && Held(d, fields, m)
    decreases fields, 3
  {
    hide ValidFields, Sane, Shaped, Fits, Held, Run;
    RunKept(d, fields, Start(slots), s);
  }

  // ---------------------------------------------------------------- the laws

  /**
   Whatever the bytes and whatever the struct held, but for its fixed-count arrays, decoding leaves every count
   within its array and every length within its buffer.
   */
  lemma DecodedFits(d: Demand, fields: seq<Field>, dest: seq<Slot>, s: bytes)
    requires ValidFields(fields) && Sane(d, fields) && Shaped(fields, dest) && Held(d, fields, dest)
    requires Decode(fields, dest, s).Ok?
    ensures var m := Decode(fields, dest, s).value; Shaped(fields, m) && Fits(d, fields, m)
  {
    DefaultsAreFresh(fields, dest);
    DefaultsKept(d, fields, dest);
    DecodeKept(d, fields, Defaults(fields, dest), s);
    DecodeShaped(fields, Defaults(fields, dest), s);
  }

  lemma {:induction false} FitIsEncodable(f: Field, v: Value)
    requires ValidField(f) && SaneField(ReadsBack, f) && ShapedValue(f, v) && FitsValue(ReadsBack, f, v)
    ensures EncodableValue(f, v) && TerminatedValue(f, v)
    decreases f, 0
  {
    if f.ltype == Submessage { FitsAreEncodable(f.sub, v.slots); }
  }

  lemma {:induction false} FitsAreEncodable(fields: seq<Field>, slots: seq<Slot>)
    requires ValidFields(fields) && Sane(ReadsBack, fields) && Shaped(fields, slots) && Fits(ReadsBack, fields, slots)
    ensures Encodable(fields, slots) && Terminated(fields, slots)
    decreases fields, 1
  {
    forall i | 0 <= i < |fields|
      ensures EncodableSlot(fields[i], slots[SlotOf(fields, i)]) && TerminatedSlot(fields[i], slots[SlotOf(fields, i)])
    {
      FitSlotIsEncodable(fields, slots, i);
    }
  }

  lemma {:induction false} FitSlotIsEncodable(fields: seq<Field>, slots: seq<Slot>, i: nat)
    requires ValidFields(fields) && Sane(ReadsBack, fields) && Shaped(fields, slots) && i < |fields|
    requires FitsSlot(ReadsBack, fields, SlotOf(fields, i), slots[SlotOf(fields, i)])
    ensures EncodableSlot(fields[i], slots[SlotOf(fields, i)]) && TerminatedSlot(fields[i], slots[SlotOf(fields, i)])
    decreases fields, 0
  {
    var f, s := fields[i], slots[SlotOf(fields, i)];
    SlotOfOneof(fields, i);
    FindOwnTag(fields, i);
    ShapedFits(fields, slots, i);
    assert SaneField(ReadsBack, f);
    if f.htype == Repeated {
      var n := |Live(s)|;
      forall k | 0 <= k < n ensures EncodableValue(f, Live(s)[k]) && TerminatedValue(f, Live(s)[k]) {
        assert Live(s)[k] == s.items[k];
        FitIsEncodable(f, s.items[k]);
      }
    } else if f.htype != Oneof || s.which == f.tag {
      FitIsEncodable(f, s.v);
    }
  }

  /** What was decoded from any input the encoder accepts, and its encoding decodes to the same message again. */
  lemma DecodedReadsBack(fields: seq<Field>, dest: seq<Slot>, s: bytes, dest': seq<Slot>)
    requires ValidFields(fields) && Sane(ReadsBack, fields) && Shaped(fields, dest) && Shaped(fields, dest')
    requires Held(ReadsBack, fields, dest)
    requires Decode(fields, dest, s).Ok?
    ensures var m := Decode(fields, dest, s).value;
            && Encodable(fields, m) && Terminated(fields, m)
            && (Short(fields, m) ==>
                  var p := Decode(fields, dest', Ser(fields, m));
                  p.Ok? && p.rest == [] && Same(fields, m, p.value))
  {
    var m := Decode(fields, dest, s).value;
    DecodedFits(ReadsBack, fields, dest, s);
    FitsAreEncodable(fields, m);
    if Short(fields, m) { DecodeInvertsEncode(fields, m, dest'); }
  }

  /** Without fixed-count arrays the destination may hold anything at all. */
  lemma DecodedReadsBackAlways(fields: seq<Field>, dest: seq<Slot>, s: bytes, dest': seq<Slot>)
    requires ValidFields(fields) && Sane(ReadsBack, fields) && NoFixedCount(fields)
    requires Shaped(fields, dest) && Shaped(fields, dest') && Decode(fields, dest, s).Ok?
    ensures var m := Decode(fields, dest, s).value;
            && Encodable(fields, m) && Terminated(fields, m)
            && (Short(fields, m) ==>
                  var p := Decode(fields, dest', Ser(fields, m));
                  p.Ok? && p.rest == [] && Same(fields, m, p.value))
  {
    NothingHeld(ReadsBack, fields, dest);
    DecodedReadsBack(fields, dest, s, dest');
  }

  /** An item of a fixed-count array that no input has filled stays what it was. */
  lemma UnsentItemsStay(fields: seq<Field>, dest: seq<Slot>)
    requires fields == [Field(1, Bytes, Repeated, 0, 0, 5, 2, [], None)]
    requires dest == [Array([BytesV(0, [7]), BytesV(1000, [7])])]
    ensures ValidFields(fields) && Sane(ReadsBack, fields) && Shaped(fields, dest)
    ensures Decode(fields, dest, []) == Ok(dest, []) && !Encodable(fields, dest) && !Fits(InBounds, fields, dest)
  {
    var f, s := fields[0], dest[0];
    assert ValidFields(f.sub) && ValidField(f) && !f.InUnion();
    assert forall i | 0 <= i < |fields| :: fields[i] == f;
    assert SlotOf(fields, 0) == 0 && ShapedSlot(fields, 0, s);
    assert SaneField(ReadsBack, f);
    assert Defaults(fields, dest) == dest;
    hide ValidFields, Sane, Shaped;
    assert RequiredBefore(fields, 1) == RequiredBefore(fields, 0) == 0;
    EmptyInput(fields, dest);
    ItemOutOfBounds(fields, dest, 1);
  }

  lemma EmptyInput(fields: seq<Field>, slots: seq<Slot>)
    requires RequiredBefore(fields, |fields|) == 0
    ensures DecodeNoinit(fields, slots, []) == Ok(slots, [])
  {
    var none: bytes := [];
    assert Run(fields, Start(slots), none) == Done(Start(slots), none, false);
    assert Complete(fields, Start(slots));
  }

  lemma ItemOutOfBounds(fields: seq<Field>, slots: seq<Slot>, k: nat)
    requires |fields| == |slots| == 1 && fields[0].ltype == Bytes && fields[0].htype == Repeated
    requires slots[0].Array? && k < |slots[0].items|
    requires var v := slots[0].items[k]; v.BytesV? && v.size > |v.buf|
    ensures !Encodable(fields, slots) && !Fits(InBounds, fields, slots)
  {
    var f, s := fields[0], slots[0];
    assert Live(s)[k] == s.items[k] && !EncodableValue(f, s.items[k]);
    assert !EncodableSlot(f, slots[SlotOf(fields, 0)]);
    assert !FitsValue(InBounds, f, s.items[k]) && !FitsSlot(InBounds, fields, 0, s);
  }
}
