/** Decoding concatenated inputs, and inputs with fields the descriptor does not know. */
module Merging {
  import opened Bits
  import opened Descriptor
  import opened Options
  import opened Varints
  import opened Serialize
  import opened Deserialize
  import opened Extend
  import opened RoundTrip
  import opened Shapes
  import opened Turns

  // ---------------------------------------------------------------- merge

  function AlsoSeen(st: State, more: set<nat>): State {
    st.(seen := st.seen + more)
  }

  function OutcomeAlsoSeen(o: Outcome, more: set<nat>): Outcome {
    match o
    case Failed => Failed
    case Done(st, rest, zero) => Done(AlsoSeen(st, more), rest, zero)
  }

  /** Required fields seen earlier do not influence the loop. */
  lemma {:induction false} RunAlsoSeen(fields: seq<Field>, st: State, more: set<nat>, s: bytes)
    ensures Run(fields, AlsoSeen(st, more), s) == OutcomeAlsoSeen(Run(fields, st, s), more)
    decreases |s|
  {
    if s != [] {
      StepAlsoSeen(fields, st, more, s);
      match Step(fields, st, s)
      case Next(st', r) => RunAlsoSeen(fields, st', more, r);
      case _ =>
    }
  }

  function TurnAlsoSeen(t: Turn, more: set<nat>): Turn {
    match t
    case Next(st, r) => Next(AlsoSeen(st, more), r)
    case _ => t
  }

  lemma StepAlsoSeen(fields: seq<Field>, st: State, more: set<nat>, s: bytes)
    ensures Step(fields, AlsoSeen(st, more), s) == TurnAlsoSeen(Step(fields, st, s), more)
  {
    if Dec32(s).Ok? && Dec32(s).value != 0 {
      var key, r := Dec32(s).value, Dec32(s).rest;
      match FindTag(fields, key / 8)
      case None =>
        assert st.seen + {0} + more == st.seen + more + {0};
      case Some(i) =>
        var q := RequiredBefore(fields, i);
        assert st.seen + {q} + more == st.seen + more + {q};
        if EnterFixed(fields, st, i).Some? {
          var st1 := EnterFixed(fields, st, i).value;
          assert MarkSeen(fields, AlsoSeen(st1, more), i) == AlsoSeen(MarkSeen(fields, st1, i), more);
        }
    }
  }

  /** `a` is read to its end, not to a zero tag, and holds no fixed-count field. */
  predicate Mergeable(fields: seq<Field>, slots: seq<Slot>, a: bytes) {
    var o := Run(fields, Start(slots), a);
    o.Done? && !o.zero && o.st.fixedField.None?
  }

  /**
   pb_decode_noinit on a + b is pb_decode_noinit on a and then on b into the same struct.
   */
  lemma Merge(fields: seq<Field>, slots: seq<Slot>, a: bytes, b: bytes)
    requires Mergeable(fields, slots, a) && DecodeNoinit(fields, slots, a).Ok?
    requires DecodeNoinit(fields, DecodeNoinit(fields, slots, a).value, b).Ok?
    ensures DecodeNoinit(fields, slots, a + b) == DecodeNoinit(fields, DecodeNoinit(fields, slots, a).value, b)
  {
    var mid := Run(fields, Start(slots), a).st;
    RunExtend(fields, Start(slots), a, b);
    RunAlsoSeen(fields, Start(mid.slots), mid.seen, b);
    RunIdle(fields, Start(slots), a);
    assert mid == AlsoSeen(Start(mid.slots), mid.seen);
  }

  /** The running count stays 0 while no fixed-count field has been entered. */
  predicate Idle(st: State) {
    st.fixedField.None? ==> st.fixedCount == 0
  }

  lemma {:induction false} RunIdle(fields: seq<Field>, st: State, s: bytes)
    requires Idle(st) && Run(fields, st, s).Done?
    ensures Idle(Run(fields, st, s).st)
    decreases |s|
  {
    if s != [] {
      match Step(fields, st, s)
      case Next(st', r) =>
        StepIdle(fields, st, s);
        RunIdle(fields, st', r);
      case _ =>
    }
  }

  lemma StepIdle(fields: seq<Field>, st: State, s: bytes)
    requires Idle(st) && Step(fields, st, s).Next?
    ensures Idle(Step(fields, st, s).st)
    ensures (forall i | 0 <= i < |fields| :: !fields[i].FixedCount()) ==> Step(fields, st, s).st.fixedField == st.fixedField
  {
    var key := Dec32(s).value;
    match FindTag(fields, key / 8)
    case None =>
    case Some(i) =>
      var st1 := EnterFixed(fields, st, i).value;
      var slot := st1.slots[SlotOf(fields, i)];
      if !fields[i].FixedCount() {
        assert DecSlot(fields[i], slot, st1.fixedCount, key % 8, Dec32(s).rest).value.1 == st1.fixedCount;
      } else {
        assert st1.fixedField == Some(i);
      }
  }

  /** A descriptor without fixed-count fields never starts a fixed-count run. */
  lemma {:induction false} NoFixedRun(fields: seq<Field>, st: State, s: bytes)
    requires Idle(st) && st.fixedField.None? && Run(fields, st, s).Done?
    requires forall i | 0 <= i < |fields| :: !fields[i].FixedCount()
    ensures Run(fields, st, s).st.fixedField.None?
    decreases |s|
  {
    if s != [] {
      match Step(fields, st, s)
      case Next(st', r) =>
        StepIdle(fields, st, s);
        NoFixedRun(fields, st', r);
      case _ =>
    }
  }

  /** The law for descriptors without fixed-count fields. */
  lemma MergeWithoutFixedCount(fields: seq<Field>, slots: seq<Slot>, a: bytes, b: bytes)
    requires forall i | 0 <= i < |fields| :: !fields[i].FixedCount()
    requires Run(fields, Start(slots), a).Done? && !Run(fields, Start(slots), a).zero
    requires DecodeNoinit(fields, slots, a).Ok?
    requires DecodeNoinit(fields, DecodeNoinit(fields, slots, a).value, b).Ok?
    ensures DecodeNoinit(fields, slots, a + b) == DecodeNoinit(fields, DecodeNoinit(fields, slots, a).value, b)
  {
    NoFixedRun(fields, Start(slots), a);
    Merge(fields, slots, a, b);
  }

  /** The second input begins its fixed-count fields with the array that the first one filled last. */
  predicate Clashes(fields: seq<Field>, first: seq<nat>, second: seq<nat>) {
    var last := LastFixed(fields, first);
    last.Some? && FirstFixed(fields, second) == last && fields[last.value].arraySize > 0
  }

  /**
   The law for all descriptors: two inputs that decode one after the other into the same struct decode to the
   same when concatenated, unless their fixed-count fields clash; then the concatenation is refused.
   */
  lemma MergeExactly(fields: seq<Field>, slots: seq<Slot>, a: bytes, b: bytes)
    requires ValidFields(fields) && Shaped(fields, slots)
    requires Run(fields, Start(slots), a).Done? && !Run(fields, Start(slots), a).zero
    requires DecodeNoinit(fields, slots, a).Ok?
    requires DecodeNoinit(fields, DecodeNoinit(fields, slots, a).value, b).Ok?
    ensures var merged := DecodeNoinit(fields, slots, a).value;
            DecodeNoinit(fields, slots, a + b)
            == if Clashes(fields, Tags(fields, Start(slots), a), Tags(fields, Start(merged), b)) then Fail
               else DecodeNoinit(fields, merged, b)
  {
    hide Run, Tags, Shaped, ValidFields, LastFixed, FirstFixed;
    var st := Run(fields, Start(slots), a).st;
    LastEntered(fields, Start(slots), a);
    if st.fixedField.None? {
      Merge(fields, slots, a, b);
    } else {
      DecodeShaped(fields, slots, a);
      RunExtend(fields, Start(slots), a, b);
      MergeBehindFixed(fields, st, st.fixedField.value, b);
    }
  }

  /** Going on behind a complete fixed-count run. */
  lemma MergeBehindFixed(fields: seq<Field>, st: State, i: nat, b: bytes)
    requires ValidFields(fields) && Shaped(fields, st.slots) && Complete(fields, st)
    requires i < |fields| && fields[i].FixedCount() && st.fixedField == Some(i)
    requires DecodeNoinit(fields, st.slots, b).Ok?
    ensures if FirstFixed(fields, Tags(fields, Start(st.slots), b)) == Some(i) && fields[i].arraySize > 0 then
              Run(fields, st, b) == Failed
            else
              && Run(fields, st, b).Done? && Complete(fields, Run(fields, st, b).st)
              && DecodeNoinit(fields, st.slots, b) == Ok(Run(fields, st, b).st.slots, Run(fields, st, b).rest)
  {
    hide Run, Tags, Shaped, ValidFields, FirstFixed;
    var anew := Start(st.slots);
    var full := Retracked(anew, Some(i), fields[i].arraySize);
    assert st == AlsoSeen(full, st.seen);
    RunAlsoSeen(fields, full, st.seen, b);
    if FirstFixed(fields, Tags(fields, anew, b)) == Some(i) && fields[i].arraySize > 0 {
      Clash(fields, anew, i, b);
    } else {
      NoClash(fields, anew, i, b);
    }
  }

  /** A concrete clash: the array is full after the first half. */
  lemma FixedCountDoesNotMerge(fields: seq<Field>, a: bytes)
    requires fields == [Field(1, Bool, Repeated, 0, 0, 1, 1, [], None)] && a == [0x08, 0x01]
    ensures var full := [Array([BoolV(true)])];
            ValidFields(fields) && Shaped(fields, full)
            && DecodeNoinit(fields, full, a) == Ok(full, [])
            && DecodeNoinit(fields, full, a + a) == Fail
  {
    var full := [Array([BoolV(true)])];
    var st := State(full, {}, Some(0), 1);
    var f := fields[0];
    var items := [BoolV(true)];
    assert !f.InUnion() && ValidFields(f.sub) && ValidField(f);
    assert forall i | 0 <= i < |fields| :: fields[i] == f;
    assert ShapedSlot(fields, 0, full[0]);
    KeyBytes(a);
    assert FindTag(fields, 1) == Some(0);
    assert SlotOf(fields, 0) == 0;
    assert items[0 := BoolV(true)] == items;
    assert DecValue(f, BoolV(true), [0x01]) == Ok(BoolV(true), []);
    assert DecItem(f, Filled(items, 0), [0x01]) == Ok(Filled(items, 1), []);
    assert full[0 := Array(items)] == full;
    assert DecSlot(f, full[0], 0, 0, [0x01]) == Ok((Array(items), 1), []);
    assert KnownField(fields, Start(full), 0, 0, [0x01]) == Next(st, []);
    assert Step(fields, Start(full), a) == Next(st, []);
    assert RequiredBefore(fields, 1) == 0;
    RunExtend(fields, Start(full), a, a);
    assert DecItem(f, Filled(items, 1), [0x01]) == Fail;
    assert DecSlot(f, full[0], 1, 0, [0x01]) == Fail;
    assert KnownField(fields, st, 0, 0, [0x01]) == Error;
    assert Step(fields, st, a) == Error;
  }

  lemma KeyBytes(a: bytes)
    requires a == [0x08, 0x01]
    ensures Dec32(a) == Ok(8, [0x01]) && Dec32([0x01]) == Ok(1, [])
  {
    var b: bytes := [0x01];
    assert a[1..] == b && b[1..] == [];
  }

  // ---------------------------------------------------------------- unknown fields

  /** A complete field whose tag is neither 0 nor in the descriptor. */
  predicate Unknown(fields: seq<Field>, u: bytes) {
    && Dec32(u).Ok?
    && Dec32(u).value / 8 != 0 && FindTag(fields, Dec32(u).value / 8) == None
    && Skip(Dec32(u).value % 8, Dec32(u).rest) == Ok((), [])
  }

  /** Fields of the four wire types that can be skipped, as any encoder prints them. */
  lemma UnknownForms(fields: seq<Field>, tag: nat, v: nat, s: bytes)
    requires 0 < tag < 0x2000_0000 && FindTag(fields, tag) == None
    ensures Unknown(fields, Enc(8 * tag) + Enc(v))
    ensures |s| == 8 ==> Unknown(fields, Enc(8 * tag + 1) + s)
    ensures |s| < U32 ==> Unknown(fields, Enc(8 * tag + 2) + (Enc(|s|) + s))
    ensures |s| == 4 ==> Unknown(fields, Enc(8 * tag + 5) + s)
  {
    KeyRoundTrip(tag, WT_VARINT, Enc(v));
    SkipsEnc(v);
    KeyRoundTrip(tag, WT_64BIT, s);
    KeyRoundTrip(tag, WT_32BIT, s);
    KeyRoundTrip(tag, WT_STRING, Prefixed(s));
    if |s| < U32 {
      WindowOfPrefixed(s, []);
      assert Prefixed(s) + [] == Prefixed(s);
    }
  }

  lemma {:induction false} SkipsEnc(v: nat)
    ensures SkipVarint(Enc(v)) == Ok((), [])
    decreases v
  {
    if v >= 128 { SkipsEnc(v / 128); }
  }

  /**
   Unknown fields are transparent: put at any boundary between top-level fields, in the middle of a
   fixed-count array too, one changes nothing in what is decoded, or in whether decoding succeeds.
   */
  lemma UnknownTransparent(fields: seq<Field>, slots: seq<Slot>, a: bytes, u: bytes, b: bytes)
    requires Run(fields, Start(slots), a).Done? && !Run(fields, Start(slots), a).zero && Unknown(fields, u)
    ensures DecodeNoinit(fields, slots, a + u + b) == DecodeNoinit(fields, slots, a + b)
  {
    var st := Run(fields, Start(slots), a).st;
    RunExtend(fields, Start(slots), a, b);
    RunExtend(fields, Start(slots), a, u + b);
    assert a + (u + b) == a + u + b;
    RunOne(fields, st, u, b);
  }
}
