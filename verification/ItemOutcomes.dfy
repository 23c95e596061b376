/** What every item decoder makes of any input, written by any encoder, and what the encoder refuses. */
module ItemOutcomes {
  import opened Bits
  import opened Descriptor
  import opened Options
  import opened Varints
  import opened Serialize
  import opened Deserialize
  import opened RoundTrip
  import opened WireFormat

  // ---------------------------------------------------------------- integers

  /** The sizes of unsigned integers, and the values each can hold. */
  predicate FitsUnsigned(n: nat, v: int) {
    || (n == 1 && 0 <= v < 0x100)
    || (n == 2 && 0 <= v < 0x1_0000)
    || (n == 4 && 0 <= v < 0x1_0000_0000)
    || (n == 8 && 0 <= v < 0x1_0000_0000_0000_0000)
  }

  predicate FitsSigned(n: nat, v: int) {
    || (n == 1 && -0x80 <= v < 0x80)
    || (n == 2 && -0x8000 <= v < 0x8000)
    || (n == 4 && -0x8000_0000 <= v < 0x8000_0000)
    || (n == 8 && -0x8000_0000_0000_0000 <= v < 0x8000_0000_0000_0000)
  }

  /** An unsigned field takes exactly the values it can hold, and none is truncated. */
  lemma UVarintOutcome(f: Field, was: Value, s: bytes)
    requires f.ltype == UVarint
    ensures DecValue(f, was, s)
         == if Dec64(s).Ok? && FitsUnsigned(f.dataSize, Dec64(s).value) then Ok(IntV(Dec64(s).value), Dec64(s).rest)
            else Fail
  {
    hide Dec64;
  }

  /** A signed field of 8 bytes holds the 64-bit number congruent to the varint. */
  lemma Varint64Outcome(f: Field, was: Value, s: bytes, i: int)
    requires f.ltype == Varint && f.dataSize == 8 && Dec64(s).Ok?
    requires -0x8000_0000_0000_0000 <= i < 0x8000_0000_0000_0000
    requires i == Dec64(s).value || i == Dec64(s).value - 0x1_0000_0000_0000_0000
    ensures DecValue(f, was, s) == Ok(IntV(i), Dec64(s).rest)
  {
    hide Dec64;
  }

  /** A smaller one the 32-bit number congruent to it, exactly when that is in its range. */
  lemma VarintOutcome(f: Field, was: Value, s: bytes, i: int)
    requires f.ltype == Varint && f.dataSize != 8 && Dec64(s).Ok?
    requires -0x8000_0000 <= i < 0x8000_0000
    requires i == Dec64(s).value % 0x1_0000_0000 || i == Dec64(s).value % 0x1_0000_0000 - 0x1_0000_0000
    ensures DecValue(f, was, s) == if FitsSigned(f.dataSize, i) then Ok(IntV(i), Dec64(s).rest) else Fail
  {
    hide Dec64;
  }

  /** A zigzag field takes exactly the numbers it can hold. */
  lemma SVarintOutcome(f: Field, was: Value, s: bytes, i: int)
    requires f.ltype == SVarint && Dec64(s).Ok?
    requires Dec64(s).value == if i < 0 then -2 * i - 1 else 2 * i
    ensures DecValue(f, was, s) == if FitsSigned(f.dataSize, i) then Ok(IntV(i), Dec64(s).rest) else Fail
  {
    hide Dec64;
    Dec64IsWord(s);
    UnZigZagOf(Dec64(s).value, i);
  }

  lemma Dec64IsWord(s: bytes)
    requires Dec64(s).Ok?
    ensures Dec64(s).value < U64
  {
  }

  lemma UnZigZagOf(v: nat, i: int)
    requires v < U64 && v == if i < 0 then -2 * i - 1 else 2 * i
    ensures UnZigZag(v) == i
  {
    assert v / 2 == if i < 0 then -i - 1 else i;
  }

  lemma IntegersNeedVarints(f: Field, was: Value, s: bytes)
    requires f.ltype in {Varint, UVarint, SVarint} && !Dec64(s).Ok?
    ensures DecValue(f, was, s) == Fail
  {
    hide Dec64;
  }

  lemma BoolOutcome(f: Field, was: Value, s: bytes)
    requires f.ltype == Bool
    ensures DecValue(f, was, s) == if Dec32(s).Ok? then Ok(BoolV(Dec32(s).value != 0), Dec32(s).rest) else Fail
  {
    hide Dec32;
  }

  lemma FixedOutcome(f: Field, was: Value, s: bytes)
    requires f.ltype in {Fixed32, Fixed64}
    ensures var n := if f.ltype == Fixed32 then 4 else 8;
            DecValue(f, was, s) == if |s| >= n then Ok(IntV(Bytewise(s[..n])), s[n..]) else Fail
  {
    var n := if f.ltype == Fixed32 then 4 else 8;
    if |s| >= n { WordBytes(s[..n]); }
  }

  // ---------------------------------------------------------------- bytes

  /** Bytes are taken when they and the count of 4 bytes fit; those of the buffer behind them stay. */
  lemma BytesOutcome(f: Field, was: Value, s: bytes)
    requires f.ltype == Bytes && ShapedValue(f, was)
    ensures var p := Dec32(s);
            DecValue(f, was, s)
            == if p.Ok? && p.value <= |p.rest| && p.value + 4 <= f.dataSize then
                 Ok(BytesV(p.value, p.rest[..p.value] + was.buf[p.value..]), p.rest[p.value..])
               else Fail
  {
    hide Dec32;
  }

  /** A string is taken when it and a terminator fit; the buffer behind them stays. */
  lemma StringOutcome(f: Field, was: Value, s: bytes)
    requires f.ltype == String && ShapedValue(f, was)
    ensures var p := Dec32(s);
            DecValue(f, was, s)
            == if p.Ok? && p.value <= |p.rest| && p.value + 1 <= f.dataSize then
                 Ok(StringV(p.rest[..p.value] + [0] + was.buf[p.value + 1..]), p.rest[p.value..])
               else Fail
  {
    hide Dec32;
  }

  /** Fixed-length bytes are zeroed by an empty payload and else have to come in full. */
  lemma FixedLengthOutcome(f: Field, was: Value, s: bytes)
    requires f.ltype == FixedLengthBytes
    ensures var p := Dec32(s);
            DecValue(f, was, s)
            == if p.Ok? && p.value == 0 then Ok(FixedBytesV(seq(f.dataSize, _ => 0)), p.rest)
               else if p.Ok? && p.value == f.dataSize && p.value <= |p.rest| then
                 Ok(FixedBytesV(p.rest[..p.value]), p.rest[p.value..])
               else Fail
  {
    hide Dec32;
    assert Zeros(f.dataSize) == seq(f.dataSize, _ => 0);
  }

  /** A submessage is decoded from its payload alone, and what a zero tag leaves of that is passed over. */
  lemma SubmessageOutcome(f: Field, was: Value, s: bytes)
    requires f.ltype == Submessage && was.MessageV?
    ensures var p := Dec32(s);
            DecValue(f, was, s)
            == if p.Ok? && p.value <= |p.rest| then
                 var start := if f.htype == Repeated then Defaults(f.sub, was.slots) else was.slots;
                 var m := DecodeNoinit(f.sub, start, p.rest[..p.value]);
                 if m.Ok? then Ok(MessageV(m.value), p.rest[p.value..]) else Fail
               else Fail
  {
    hide Dec32, DecodeNoinit;
  }

  /** An array takes one more item exactly when it is not full, over what was there. */
  lemma ItemOutcome(f: Field, a: Filled, s: bytes)
    requires |a.items| == f.arraySize
    ensures DecItem(f, a, s)
         == if a.count < f.arraySize && DecValue(f, a.items[a.count], s).Ok? then
              var p := DecValue(f, a.items[a.count], s);
              Ok(Filled(a.items[..a.count] + [p.value] + a.items[a.count + 1..], a.count + 1), p.rest)
            else Fail
  {
    hide DecValue;
    if a.count < f.arraySize && DecValue(f, a.items[a.count], s).Ok? {
      var v := DecValue(f, a.items[a.count], s).value;
      assert a.items[a.count := v] == a.items[..a.count] + [v] + a.items[a.count + 1..];
    }
  }

  // ---------------------------------------------------------------- what the encoder refuses

  predicate Acceptable(f: Field, v: Value) {
    && (f.ltype in {Varint, UVarint, SVarint} ==> f.dataSize in {1, 2, 4, 8})
    && (v.BytesV? ==> v.size <= |v.buf|)
    && (v.MessageV? ==> Encodable(f.sub, v.slots))
  }

  /** Integers of other sizes than 1, 2, 4 and 8 bytes, counts of bytes and items out of bounds, and nothing else. */
  lemma RefusedExactly(f: Field, s: Slot)
    requires ValidField(f) && SlotFits(f, s)
    ensures EncodableSlot(f, s)
       <==> (s.Counted? ==> s.count <= f.arraySize)
            && forall k | 0 <= k < |LiveValues(f, s)| :: Acceptable(f, LiveValues(f, s)[k])
  {
    hide Acceptable, EncodableValue, EncodableSlot, LiveValues;
    forall k | 0 <= k < |LiveValues(f, s)|
      ensures EncodableValue(f, LiveValues(f, s)[k]) <==> Acceptable(f, LiveValues(f, s)[k])
    {
      LiveShaped(f, s, k);
      AcceptableValue(f, LiveValues(f, s)[k]);
    }
    LiveEncodable(f, s);
  }

  lemma AcceptableValue(f: Field, v: Value)
    requires ShapedValue(f, v)
    ensures EncodableValue(f, v) <==> Acceptable(f, v)
  {
    hide Encodable, Shaped;
  }

  lemma LiveShaped(f: Field, s: Slot, k: nat)
    requires SlotFits(f, s) && k < |LiveValues(f, s)|
    ensures ShapedValue(f, LiveValues(f, s)[k])
  {
    hide ShapedValue;
  }

  lemma LiveEncodable(f: Field, s: Slot)
    requires SlotFits(f, s)
    ensures EncodableSlot(f, s)
       <==> (s.Counted? ==> s.count <= f.arraySize)
            && forall k | 0 <= k < |LiveValues(f, s)| :: EncodableValue(f, LiveValues(f, s)[k])
  {
    hide ShapedValue, EncodableValue;
    if f.htype == Repeated {
      assert LiveValues(f, s) == Live(s);
    } else if LiveValues(f, s) != [] {
      assert LiveValues(f, s) == [s.v] && LiveValues(f, s)[0] == s.v;
    }
  }

  // ---------------------------------------------------------------- turns of the message loop

  /** Only a key of 0 ends the loop before its input ends. */
  lemma StopExactly(fields: seq<Field>, st: State, s: bytes)
    ensures Step(fields, st, s).Stop? <==> Dec32(s).Ok? && Dec32(s).value == 0
    ensures Dec32(s).Fail? ==> Step(fields, st, s) == Error
  {
    hide Dec32, KnownField, UnknownField, TerminatorField;
  }

  /** A tag of no entry is skipped by its wire type, the tag 0 with one other than 0 too. */
  lemma UnknownTurn(fields: seq<Field>, st: State, s: bytes)
    requires fields != [] && Dec32(s).Ok? && Dec32(s).value != 0
    requires forall i | 0 <= i < |fields| :: fields[i].tag != Dec32(s).value / 8
    ensures var skipped := Skip(Dec32(s).value % 8, Dec32(s).rest);
            Step(fields, st, s) == if skipped.Ok? then Next(st, skipped.rest) else Error
  {
    hide Dec32, Skip;
  }

  /** The fixed-count array begun last still lacks items. */
  predicate Unfinished(fields: seq<Field>, st: State) {
    match st.fixedField
    case None => false
    case Some(k) => k >= |fields| || st.fixedCount != fields[k].arraySize
  }

  /**
   A tag of an entry is decoded into its slot: not if it begins a fixed-count array while another one lacks items; from
   the start of the array if it begins one; and with its required index, if below 64, marked.
   */
  lemma KnownTurn(fields: seq<Field>, st: State, i: nat, s: bytes)
    requires ValidFields(fields) && i < |fields| == |st.slots|
    requires Dec32(s).Ok? && Dec32(s).value / 8 == fields[i].tag
    ensures var begins := fields[i].FixedCount() && st.fixedField != Some(i);
            var h := SlotOf(fields, i);
            var count := if begins then 0 else st.fixedCount;
            var p := DecSlot(fields[i], st.slots[h], count, Dec32(s).value % 8, Dec32(s).rest);
            Step(fields, st, s)
            == if (begins && Unfinished(fields, st)) || p.Fail? then Error
               else
                 var r := RequiredBefore(fields, i);
                 Next(State(st.slots[h := p.value.0],
                            if fields[i].htype == Required && r < 64 then st.seen + {r} else st.seen,
                            if begins then Some(i) else st.fixedField, p.value.1), p.rest)
  {
    hide Dec32, DecSlot, RequiredBefore;
    assert ValidField(fields[i]);
    FindOwnTag(fields, i);
  }
}
