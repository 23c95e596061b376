/** Decoding what was encoded gives the message back. */
module RoundTrip {
  import opened Bits
  import opened Descriptor
  import opened Options
  import opened Varints
  import opened Serialize
  import opened Deserialize
  import opened Extend
  import opened Equivalence
  import opened Freshness

  // ---------------------------------------------------------------- what the decoder can take back

  /** The items of a slot that the encoder writes for the entry. */
  function LiveValues(f: Field, s: Slot): seq<Value> {
    match s
    case Single(v) => if f.Singular() && IsDefault(f, s) then [] else [v]
    case Has(has, v) => if has then [v] else []
    case Union(which, v) => if which == f.tag then [v] else []
    case _ => Live(s)
  }

  predicate ShortValue(f: Field, v: Value)
    decreases f, 0
  {
    f.ltype == Submessage && v.MessageV? ==> |Ser(f.sub, v.slots)| < U32 && Short(f.sub, v.slots)
  }

  predicate ShortSlot(f: Field, s: Slot)
    decreases f, 1
  {
    && (f.htype == Repeated && f.Packable() ==> |SerItems(f, Live(s))| < U32)
    && forall k | 0 <= k < |LiveValues(f, s)| :: ShortValue(f, LiveValues(f, s)[k])
  }

  /** Encoded submessages and packed arrays have a length that fits the decoder's 32-bit length prefix. */
  predicate Short(fields: seq<Field>, slots: seq<Slot>)
    decreases fields
  {
    |slots| == |fields| && forall i | 0 <= i < |fields| :: ShortSlot(fields[i], slots[SlotOf(fields, i)])
  }

  predicate TerminatedValue(f: Field, v: Value)
    decreases f, 0
  {
    match (f.ltype, v)
    case (String, StringV(buf)) => |CString(buf)| < |buf|
    case (Submessage, MessageV(slots)) => Terminated(f.sub, slots)
    case _ => true
  }

  predicate TerminatedSlot(f: Field, s: Slot)
    decreases f, 1
  {
    forall k | 0 <= k < |LiveValues(f, s)| :: TerminatedValue(f, LiveValues(f, s)[k])
  }

  /** Encoded strings are terminated. */
  predicate Terminated(fields: seq<Field>, slots: seq<Slot>)
    decreases fields
  {
    |slots| == |fields| && forall i | 0 <= i < |fields| :: TerminatedSlot(fields[i], slots[SlotOf(fields, i)])
  }

  predicate DecodableValue(f: Field, v: Value) {
    ShortValue(f, v) && TerminatedValue(f, v)
  }

  predicate DecodableSlot(f: Field, s: Slot) {
    ShortSlot(f, s) && TerminatedSlot(f, s)
  }

  /** A struct as a caller of pb_encode fills it. */
  predicate WellFormed(fields: seq<Field>, slots: seq<Slot>) {
    && ValidFields(fields) && Shaped(fields, slots) && Encodable(fields, slots)
    && Short(fields, slots) && Terminated(fields, slots)
  }

  /** A struct that can be encoded, looked at from entry `i`. */
  predicate EntryEncodable(fields: seq<Field>, slots: seq<Slot>, i: nat) {
    ValidFields(fields) && Shaped(fields, slots) && Encodable(fields, slots) && i < |fields|
  }

  predicate EntryWellFormed(fields: seq<Field>, slots: seq<Slot>, i: nat) {
    EntryEncodable(fields, slots, i) && DecodableSlot(fields[i], slots[SlotOf(fields, i)])
  }

  // ---------------------------------------------------------------- one item

  lemma KeyRoundTrip(tag: nat, wt: nat, rest: bytes)
    requires tag < 0x2000_0000 && wt < 8
    ensures Dec32(Key(tag, wt) + rest) == Ok(8 * tag + wt, rest)
    ensures (8 * tag + wt) / 8 == tag && (8 * tag + wt) % 8 == wt
  {
    hide Enc, Dec32;
    Dec32Word(8 * tag + wt, rest);
  }

  lemma WindowOfPrefixed(s: bytes, rest: bytes)
    requires |s| < U32
    ensures Window(Prefixed(s) + rest) == Ok(s, rest)
  {
    hide Enc, Dec32;
    assert Prefixed(s) + rest == Enc(|s|) + (s + rest);
    Dec32Word(|s|, s + rest);
    TakeFront(s, rest);
  }

  lemma TakeFront(s: bytes, rest: bytes)
    ensures Take(|s|, s + rest) == Ok(s, rest)
  {
    assert (s + rest)[..|s|] == s && (s + rest)[|s|..] == rest;
  }

  /** Sign extension to 64 bits and back by the (int32_t) cast. */
  lemma SignExtension(i: int)
    requires -0x8000_0000 <= i < 0x8000_0000
    ensures AsI32(AsU64(i) % U32) == i
  {
    assert AsU64(i) == if i < 0 then i + U64 else i;
    assert AsU64(i) % U32 == if i < 0 then i + U32 else i;
  }

  lemma VarintRoundTrip(f: Field, i: int, rest: bytes)
    requires f.ltype == Varint && IntSize(f.dataSize) && ShapedValue(f, IntV(i))
    ensures DecValue(f, IntV(i), SerValue(f, IntV(i)) + rest) == Ok(IntV(i), rest)
  {
    hide Enc, Dec64;
    Dec64Enc(AsU64(i), rest);
    if f.dataSize == 8 {
      assert AsU64(i) == if i < 0 then i + U64 else i;
    } else {
      SignExtension(i);
    }
  }

  lemma UVarintRoundTrip(f: Field, i: int, rest: bytes)
    requires f.ltype == UVarint && IntSize(f.dataSize) && ShapedValue(f, IntV(i))
    ensures DecValue(f, IntV(i), SerValue(f, IntV(i)) + rest) == Ok(IntV(i), rest)
  {
    hide Enc, Dec64;
    assert AsU64(i) == i;
    Dec64Enc(AsU64(i), rest);
  }

  lemma SVarintRoundTrip(f: Field, i: int, rest: bytes)
    requires f.ltype == SVarint && IntSize(f.dataSize) && ShapedValue(f, IntV(i))
    ensures DecValue(f, IntV(i), SerValue(f, IntV(i)) + rest) == Ok(IntV(i), rest)
  {
    hide Enc, Dec64, ZigZag, UnZigZag;
    ZigZagRoundTrip(i);
    Dec64Enc(ZigZag(i), rest);
  }

  lemma FixedRoundTrip(f: Field, i: int, rest: bytes)
    requires f.ltype in {Fixed32, Fixed64} && ShapedValue(f, IntV(i))
    ensures DecValue(f, IntV(i), SerValue(f, IntV(i)) + rest) == Ok(IntV(i), rest)
  {
    hide LittleEndian, FromLittleEndian;
    var n := if f.ltype == Fixed32 then 4 else 8;
    var b := LittleEndian(n, i);
    WordRoundTrip(n, i);
    assert SerValue(f, IntV(i)) == b;
    TakeFront(b, rest);
  }

  lemma WordRoundTrip(n: nat, v: nat)
    requires (n == 4 && v < U32) || (n == 8 && v < U64)
    ensures FromLittleEndian(LittleEndian(n, v)) == v
  {
    ShlTable(1, 8 * n);
    LittleEndianRoundTrip(n, v);
  }

  lemma {:induction false} CStringOverwrite(s: bytes, buf: bytes)
    requires 0 !in s && |s| < |buf|
    ensures CString(Overwrite(buf, s + [0])) == s
  {
    CStringPrefix(s, buf[|s| + 1..]);
    assert Overwrite(buf, s + [0]) == s + [0] + buf[|s| + 1..];
  }

  lemma {:induction false} CStringPrefix(s: bytes, tail: bytes)
    requires 0 !in s
    ensures CString(s + [0] + tail) == s
  {
    var b := s + [0] + tail;
    if s != [] {
      assert b[1..] == s[1..] + [0] + tail;
      CStringPrefix(s[1..], tail);
    }
  }

  /** What the item may hold before a decoder runs on it. */
  predicate Ready(f: Field, was: Value) {
    ShapedValue(f, was) && (f.ltype == Submessage && f.htype != Repeated ==> Receptive(f.sub, was.slots))
  }

  lemma {:induction false} ValueRoundTrip(f: Field, v: Value, was: Value, rest: bytes)
    requires ValidField(f) && ShapedValue(f, v) && EncodableValue(f, v) && DecodableValue(f, v) && Ready(f, was)
    ensures var p := DecValue(f, was, SerValue(f, v) + rest);
            p.Ok? && p.rest == rest && ShapedValue(f, p.value) && SameValue(f, v, p.value)
    decreases f, 0
  {
    hide Enc, Dec32, Dec64, CString, LittleEndian, ZigZag, Overwrite;
    match f.ltype
    case Bool => BoolRoundTrip(f, v.b, rest);
    case Varint => VarintRoundTrip(f, v.i, rest);
    case UVarint => UVarintRoundTrip(f, v.i, rest);
    case SVarint => SVarintRoundTrip(f, v.i, rest);
    case Fixed32 => FixedRoundTrip(f, v.i, rest);
    case Fixed64 => FixedRoundTrip(f, v.i, rest);
    case Bytes => BytesRoundTrip(f, v, was, rest);
    case String => StringRoundTrip(f, v, was, rest);
    case FixedLengthBytes =>
      FixedBytesRoundTrip(f, v, was, rest);
    case Submessage =>
      var start := if f.htype == Repeated then Defaults(f.sub, was.slots) else was.slots;
      if f.htype == Repeated { DefaultsAreFresh(f.sub, was.slots); }
      WindowOfPrefixed(Ser(f.sub, v.slots), rest);
      MessageRoundTrip(f.sub, v.slots, start);
  }

  lemma BoolRoundTrip(f: Field, b: bool, rest: bytes)
    requires f.ltype == Bool
    ensures DecValue(f, BoolV(b), SerValue(f, BoolV(b)) + rest) == Ok(BoolV(b), rest)
  {
    Dec32Word(if b then 1 else 0, rest);
  }

  lemma BytesRoundTrip(f: Field, v: Value, was: Value, rest: bytes)
    requires f.ltype == Bytes && f.dataSize <= PB_SIZE_MAX && ShapedValue(f, v) && EncodableValue(f, v)
    requires ShapedValue(f, was)
    ensures var p := DecValue(f, was, SerValue(f, v) + rest);
            p.Ok? && p.rest == rest && ShapedValue(f, p.value) && SameValue(f, v, p.value)
  {
    WindowOfPrefixed(v.buf[..v.size], rest);
  }

  lemma StringRoundTrip(f: Field, v: Value, was: Value, rest: bytes)
    requires f.ltype == String && f.dataSize <= PB_SIZE_MAX && ShapedValue(f, v) && TerminatedValue(f, v)
    requires ShapedValue(f, was)
    ensures var p := DecValue(f, was, SerValue(f, v) + rest);
            p.Ok? && p.rest == rest && ShapedValue(f, p.value) && SameValue(f, v, p.value)
  {
    WindowOfPrefixed(CString(v.buf), rest);
    CStringOverwrite(CString(v.buf), was.buf);
  }

  lemma FixedBytesRoundTrip(f: Field, v: Value, was: Value, rest: bytes)
    requires f.ltype == FixedLengthBytes && f.dataSize <= PB_SIZE_MAX && ShapedValue(f, v)
    ensures DecValue(f, was, SerValue(f, v) + rest) == Ok(v, rest)
  {
    var b := v.buf;
    assert SerValue(f, v) + rest == Enc(|b|) + (b + rest);
    Dec32Word(|b|, b + rest);
    TakeFront(b, rest);
    if |b| == 0 {
      assert b + rest == rest && Zeros(0) == b;
    }
  }

  // ---------------------------------------------------------------- progress through a message

  /**
   Slot `h` of the destination when the entries before `i` have been decoded: those stand for the
   message, the others are as pb_message_set_to_defaults left them.
   */
  predicate SlotAgrees(fields: seq<Field>, msg: seq<Slot>, slots: seq<Slot>, i: nat, h: nat)
    requires h < |fields| == |msg| == |slots|
  {
    if SlotOf(fields, h) == h && fields[h].htype == Oneof then
      && msg[h].Union? && slots[h].Union?
      && var j := Selected(fields, h, msg[h].which);
         if j.Some? && j.value < i then
           && slots[h].which == msg[h].which
           && ShapedValue(fields[j.value], slots[h].v) && SameValue(fields[j.value], msg[h].v, slots[h].v)
         else slots[h].which == 0
    else if h < i then ShapedSlot(fields, h, slots[h]) && SameSlot(fields, h, msg[h], slots[h])
    else ReceptiveSlot(fields, h, slots[h])
  }

  predicate Agrees(fields: seq<Field>, msg: seq<Slot>, slots: seq<Slot>, i: nat) {
    && |msg| == |slots| == |fields|
    && forall h | 0 <= h < |fields| :: SlotAgrees(fields, msg, slots, i, h)
  }

  /** The state of the loop between the encodings of entry `i - 1` and entry `i`. */
  predicate At(fields: seq<Field>, msg: seq<Slot>, st: State, i: nat) {
    && i <= |fields|
    && Agrees(fields, msg, st.slots, i)
    && FixedDone(fields, st) && (st.fixedField.Some? ==> st.fixedField.value < i)
    && forall r: nat | r < RequiredBefore(fields, i) && r < PB_MAX_REQUIRED_FIELDS :: r in st.seen
  }

  lemma AgreesAtStart(fields: seq<Field>, msg: seq<Slot>, start: seq<Slot>)
    requires ValidFields(fields) && Shaped(fields, msg) && Receptive(fields, start)
    ensures At(fields, msg, Start(start), 0)
  {
    forall h | 0 <= h < |fields| ensures SlotAgrees(fields, msg, start, 0, h) {
      assert ShapedSlot(fields, h, msg[h]) && ReceptiveSlot(fields, h, start[h]);
    }
  }

  lemma AgreesAtEnd(fields: seq<Field>, msg: seq<Slot>, slots: seq<Slot>)
    requires ValidFields(fields) && Shaped(fields, msg) && Agrees(fields, msg, slots, |fields|)
    ensures Shaped(fields, slots) && Same(fields, msg, slots)
  {
    forall h | 0 <= h < |fields| ensures ShapedSlot(fields, h, slots[h]) && SameSlot(fields, h, msg[h], slots[h]) {
      assert SlotAgrees(fields, msg, slots, |fields|, h) && ShapedSlot(fields, h, msg[h]);
      NoMemberZero(fields, h);
    }
  }

  /** Decoding entry `i` touches one slot, so only that slot has to be looked at again. */
  lemma AgreesNext(fields: seq<Field>, msg: seq<Slot>, slots: seq<Slot>, i: nat, slot: Slot)
    requires ValidFields(fields) && i < |fields| && Shaped(fields, msg) && Agrees(fields, msg, slots, i)
    requires var h := SlotOf(fields, i); SlotAgrees(fields, msg, slots[h := slot], i + 1, h)
    ensures Agrees(fields, msg, slots[SlotOf(fields, i) := slot], i + 1)
  {
    var g := SlotOf(fields, i);
    var after, next := slots[g := slot], i + 1;
    forall h | 0 <= h < |fields| ensures SlotAgrees(fields, msg, after, next, h) {
      assert SlotAgrees(fields, msg, slots, i, h) && ShapedSlot(fields, h, msg[h]);
      if h != g && h == i {
        SlotOfOneof(fields, i);
        assert ReceptiveSlot(fields, h, slots[h]);
      }
    }
  }

  /** An entry that is not encoded leaves the state as it is. */
  lemma AtSkip(fields: seq<Field>, msg: seq<Slot>, st: State, i: nat)
    requires ValidFields(fields) && i < |fields| && Shaped(fields, msg) && At(fields, msg, st, i)
    requires fields[i].htype != Required
    requires SlotAgrees(fields, msg, st.slots, i + 1, SlotOf(fields, i))
    ensures At(fields, msg, st, i + 1)
  {
    var h := SlotOf(fields, i);
    assert st.slots[h := st.slots[h]] == st.slots;
    AgreesNext(fields, msg, st.slots, i, st.slots[h]);
  }

  /** A decoded single item takes the state to the next entry. */
  lemma AtNext(fields: seq<Field>, msg: seq<Slot>, st: State, i: nat, slot: Slot)
    requires ValidFields(fields) && i < |fields| && Shaped(fields, msg) && At(fields, msg, st, i)
    requires var h := SlotOf(fields, i); SlotAgrees(fields, msg, st.slots[h := slot], i + 1, h)
    ensures At(fields, msg, MarkSeen(fields, st, i).(slots := st.slots[SlotOf(fields, i) := slot]), i + 1)
  {
    AgreesNext(fields, msg, st.slots, i, slot);
  }

  /** One turn of the loop on the key and payload of entry `i`. */
  lemma KeyedTurn(fields: seq<Field>, st: State, i: nat, wt: nat, payload: bytes, slot: Slot, n: nat)
    requires ValidFields(fields) && i < |fields| == |st.slots| && wt < 8 && EnterFixed(fields, st, i).Some?
    requires var st1 := EnterFixed(fields, st, i).value;
             DecSlot(fields[i], st1.slots[SlotOf(fields, i)], st1.fixedCount, wt, payload) == Ok((slot, n), [])
    ensures var st2 := MarkSeen(fields, EnterFixed(fields, st, i).value, i);
            Step(fields, st, Key(fields[i].tag, wt) + payload)
            == Next(st2.(slots := st2.slots[SlotOf(fields, i) := slot], fixedCount := n), [])
  {
    assert ValidField(fields[i]);
    KeyRoundTrip(fields[i].tag, wt, payload);
    FindOwnTag(fields, i);
  }

  lemma {:induction false} MessageRoundTrip(fields: seq<Field>, msg: seq<Slot>, start: seq<Slot>)
    requires WellFormed(fields, msg) && Receptive(fields, start)
    ensures var p := DecodeNoinit(fields, start, Ser(fields, msg));
            p.Ok? && p.rest == [] && Shaped(fields, p.value) && Same(fields, msg, p.value)
    decreases fields, 3
  {
    AgreesAtStart(fields, msg, start);
    var st := RunRoundTrip(fields, msg, Start(start), 0, []);
    assert Ser(fields, msg) + [] == Ser(fields, msg);
    AgreesAtEnd(fields, msg, st.slots);
  }

  lemma EntryOfMessage(fields: seq<Field>, msg: seq<Slot>, i: nat)
    requires WellFormed(fields, msg) && i < |fields|
    ensures EntryWellFormed(fields, msg, i)
  {
    hide ValidFields, Shaped, Encodable, ShortSlot, TerminatedSlot;
  }

  /** The encoding from entry `i` on, with its first entry taken apart from the rest. */
  lemma FirstEntry(fields: seq<Field>, msg: seq<Slot>, i: nat, y: bytes)
    requires i <= |fields| == |msg|
    ensures SerFrom(fields, msg, i) + y
         == if i == |fields| then y else SerSlot(fields[i], msg[SlotOf(fields, i)]) + (SerFrom(fields, msg, i + 1) + y)
  {
    hide SerSlot, SlotOf;
    if i < |fields| { Regroup(SerSlot(fields[i], msg[SlotOf(fields, i)]), SerFrom(fields, msg, i + 1), y); }
  }

  lemma Regroup(a: bytes, b: bytes, c: bytes)
    ensures (a + b) + c == a + (b + c)
  {
  }

  lemma Positions(fields: seq<Field>, msg: seq<Slot>, st: State, i: nat)
    requires At(fields, msg, st, i)
    ensures i <= |fields| == |msg|
  {
  }

  /** Running over the encoding of the entries from `i` on. */
  lemma {:induction false} RunRoundTrip(fields: seq<Field>, msg: seq<Slot>, st: State, i: nat, y: bytes)
    returns (st': State)
    requires WellFormed(fields, msg) && At(fields, msg, st, i)
    ensures Run(fields, st, SerFrom(fields, msg, i) + y) == Run(fields, st', y)
    ensures At(fields, msg, st', |fields|)
    decreases fields, 2, |fields| - i
  {
    hide *;
    Positions(fields, msg, st, i);
    FirstEntry(fields, msg, i, y);
    if i == |fields| {
      st' := st;
    } else {
      EntryOfMessage(fields, msg, i);
      var st1 := FieldRoundTrip(fields, msg, st, i, SerFrom(fields, msg, i + 1) + y);
      st' := RunRoundTrip(fields, msg, st1, i + 1, y);
    }
  }

  /** Running over the encoding of entry `i`. */
  lemma {:induction false} FieldRoundTrip(fields: seq<Field>, msg: seq<Slot>, st: State, i: nat, y: bytes)
    returns (st': State)
    requires EntryWellFormed(fields, msg, i) && At(fields, msg, st, i)
    ensures Run(fields, st, SerSlot(fields[i], msg[SlotOf(fields, i)]) + y) == Run(fields, st', y)
    ensures At(fields, msg, st', i + 1)
    decreases fields, 1
  {
    var f, h := fields[i], SlotOf(fields, i);
    var s, t := msg[h], st.slots[h];
    SlotOfOneof(fields, i);
    assert ValidField(f) && ShapedSlot(fields, h, s) && SlotAgrees(fields, msg, st.slots, i, h);
    assert EncodableSlot(f, s) && DecodableSlot(f, s);
    if SerSlot(f, s) == [] {
      assert [] + y == y;
      st' := st;
      NothingEncoded(fields, msg, st, i);
    } else if f.htype == Repeated {
      st' := ArrayRoundTrip(fields, msg, st, i, y);
    } else {
      st' := DataRoundTrip(fields, msg, st, i);
      RunOne(fields, st, Key(f.tag, WireType(f)) + SerValue(f, s.v), y);
    }
  }

  /** What a single item's slot looks like once its item is decoded. */
  function Filled1(f: Field, v: Value): Slot {
    match f.htype
    case Optional => if f.Singular() then Single(v) else Has(true, v)
    case Oneof => Union(f.tag, v)
    case _ => Single(v)
  }

  /** A slot that holds no data for the entry yet. */
  predicate ReadySlot(f: Field, t: Slot) {
    if f.htype == Oneof then t.Union? && t.which != f.tag
    else
      && (if f.htype == Optional && !f.Singular() then t.Has? else t.Single?)
      && ShapedValue(f, t.v) && ReceptiveValue(f, t.v)
  }

  /** Decoding a single item into the slot of its entry. */
  lemma {:induction false} SlotRoundTrip(f: Field, s: Slot, t: Slot, n: nat, wt: nat) returns (v: Value)
    requires ValidField(f) && f.htype != Repeated && (s.Single? || s.Has? || s.Union?)
    requires ShapedValue(f, s.v) && EncodableValue(f, s.v) && DecodableValue(f, s.v)
    requires ReadySlot(f, t)
    ensures DecSlot(f, t, n, wt, SerValue(f, s.v)) == Ok((Filled1(f, v), n), [])
    ensures ShapedValue(f, v) && SameValue(f, s.v, v)
    decreases f, 1
  {
    var was := if f.htype == Oneof then FreshMember(f) else t.v;
    FreshMemberIsFresh(f);
    var payload := SerValue(f, s.v);
    assert payload + [] == payload;
    ValueRoundTrip(f, s.v, was, []);
    v := DecValue(f, was, payload).value;
  }

  lemma {:induction false} DataRoundTrip(fields: seq<Field>, msg: seq<Slot>, st: State, i: nat) returns (st': State)
    requires EntryWellFormed(fields, msg, i) && At(fields, msg, st, i) && fields[i].htype != Repeated
    requires SerSlot(fields[i], msg[SlotOf(fields, i)]) != []
    ensures var f, s := fields[i], msg[SlotOf(fields, i)];
            (s.Single? || s.Has? || s.Union?) && SerSlot(f, s) == Key(f.tag, WireType(f)) + SerValue(f, s.v)
            && Step(fields, st, Key(f.tag, WireType(f)) + SerValue(f, s.v)) == Next(st', [])
    ensures At(fields, msg, st', i + 1)
    decreases fields, 0
  {
    var f, h := fields[i], SlotOf(fields, i);
    var s := msg[h];
    DataReady(fields, msg, st, i);
    assert DecodableValue(f, LiveValues(f, s)[0]);
    var v := SlotRoundTrip(f, s, st.slots[h], st.fixedCount, WireType(f));
    var slot := Filled1(f, v);
    KeyedTurn(fields, st, i, WireType(f), SerValue(f, s.v), slot, st.fixedCount);
    st' := MarkSeen(fields, st, i).(slots := st.slots[h := slot]);
    DataAgrees(fields, msg, st, i, v);
    AtNext(fields, msg, st, i, slot);
  }

  lemma DataReady(fields: seq<Field>, msg: seq<Slot>, st: State, i: nat)
    requires EntryEncodable(fields, msg, i) && At(fields, msg, st, i) && fields[i].htype != Repeated
    requires SerSlot(fields[i], msg[SlotOf(fields, i)]) != []
    ensures var f, s, t := fields[i], msg[SlotOf(fields, i)], st.slots[SlotOf(fields, i)];
            && ValidField(f) && (s.Single? || s.Has? || s.Union?)
            && ShapedValue(f, s.v) && EncodableValue(f, s.v) && LiveValues(f, s) == [s.v]
            && SerSlot(f, s) == Key(f.tag, WireType(f)) + SerValue(f, s.v)
            && ReadySlot(f, t)
  {
    var h := SlotOf(fields, i);
    SlotOfOneof(fields, i);
    FindOwnTag(fields, i);
    assert ValidField(fields[i]) && ShapedSlot(fields, h, msg[h]) && SlotAgrees(fields, msg, st.slots, i, h);
    assert EncodableSlot(fields[i], msg[h]);
  }

  lemma DataAgrees(fields: seq<Field>, msg: seq<Slot>, st: State, i: nat, v: Value)
    requires EntryWellFormed(fields, msg, i) && At(fields, msg, st, i) && fields[i].htype != Repeated
    requires SerSlot(fields[i], msg[SlotOf(fields, i)]) != []
    requires var s := msg[SlotOf(fields, i)]; (s.Single? || s.Has? || s.Union?) && SameValue(fields[i], s.v, v)
    requires ShapedValue(fields[i], v)
    ensures var h := SlotOf(fields, i);
            SlotAgrees(fields, msg, st.slots[h := Filled1(fields[i], v)], i + 1, h)
  {
    var h := SlotOf(fields, i);
    DataReady(fields, msg, st, i);
    SlotOfOneof(fields, i);
    FindOwnTag(fields, i);
    assert ShapedSlot(fields, h, msg[h]) && SlotAgrees(fields, msg, st.slots, i, h);
  }

  lemma {:induction false} NothingEncoded(fields: seq<Field>, msg: seq<Slot>, st: State, i: nat)
    requires EntryWellFormed(fields, msg, i) && At(fields, msg, st, i)
    requires SerSlot(fields[i], msg[SlotOf(fields, i)]) == []
    ensures At(fields, msg, st, i + 1)
  {
    var f, h := fields[i], SlotOf(fields, i);
    var s, t := msg[h], st.slots[h];
    SlotOfOneof(fields, i);
    FindOwnTag(fields, i);
    assert ValidField(f) && ShapedSlot(fields, h, s) && SlotAgrees(fields, msg, st.slots, i, h);
    assert EncodableSlot(f, s);
    if f.htype == Repeated {
      EmptyArray(f, Live(s));
    } else if f.Singular() {
      assert h == i && ReceptiveValue(f, t.v);
      DefaultSingular(f, s.v, t.v);
    }
    AtSkip(fields, msg, st, i);
  }

  lemma EmptyArray(f: Field, items: seq<Value>)
    requires SerArray(f, items) == []
    ensures items == []
  {
  }

  // ---------------------------------------------------------------- arrays

  /** The items decoded so far into a repeated entry's slot, with the count wherever it is kept. */
  function ItemsAt(fields: seq<Field>, st: State, i: nat): Filled
    requires i < |fields|
  {
    var h := SlotOf(fields, i);
    if h >= |st.slots| then Filled([], 0)
    else match st.slots[h]
      case Counted(count, items) => Filled(items, count)
      case Array(items) => Filled(items, if st.fixedField == Some(i) then st.fixedCount else 0)
      case _ => Filled([], 0)
  }

  /** Putting them back. */
  function WithItems(fields: seq<Field>, st: State, i: nat, a: Filled): State
    requires i < |fields| == |st.slots|
  {
    var h := SlotOf(fields, i);
    if fields[i].FixedCount() then
      st.(slots := st.slots[h := Array(a.items)], fixedField := Some(i), fixedCount := a.count)
    else
      st.(slots := st.slots[h := Counted(a.count, a.items)])
  }

  /** The slot of a repeated entry has the kind its descriptor says. */
  predicate RepeatedSlot(fields: seq<Field>, st: State, i: nat) {
    && i < |fields| == |st.slots| && fields[i].htype == Repeated
    && (if fields[i].FixedCount() then st.slots[i].Array? else st.slots[i].Counted?)
  }

  /** One turn of the loop on a packed block, or on one item, of entry `i`. */
  lemma RepeatedTurn(fields: seq<Field>, st: State, i: nat, wt: nat, payload: bytes, a: Filled)
    requires ValidFields(fields) && RepeatedSlot(fields, st, i) && wt < 8 && EnterFixed(fields, st, i).Some?
    requires DecRepeated(fields[i], ItemsAt(fields, st, i), wt, payload) == Ok(a, [])
    ensures Step(fields, st, Key(fields[i].tag, wt) + payload) == Next(WithItems(fields, st, i, a), [])
  {
    var st1 := EnterFixed(fields, st, i).value;
    var slot := if fields[i].FixedCount() then Array(a.items) else Counted(a.count, a.items);
    var n := if fields[i].FixedCount() then a.count else st1.fixedCount;
    assert SlotOf(fields, i) == i;
    KeyedTurn(fields, st, i, wt, payload, slot, n);
  }

  /** Items that survive the trip. */
  predicate GoodItems(f: Field, items: seq<Value>)
    decreases f, 1
  {
    forall k | 0 <= k < |items| :: ShapedValue(f, items[k]) && EncodableValue(f, items[k]) && DecodableValue(f, items[k])
  }

  /** The first `k` of the items have been decoded into `a`. */
  predicate Partial(f: Field, items: seq<Value>, a: Filled, k: nat) {
    && a.count == k <= |items| <= |a.items| == f.arraySize
    && (forall j | 0 <= j < |a.items| :: ShapedValue(f, a.items[j]))
    && SameItems(f, items, a.items, k)
  }

  /** One more item. */
  lemma {:induction false} ItemRoundTrip(f: Field, items: seq<Value>, a: Filled, k: nat, rest: bytes)
    returns (a': Filled)
    requires ValidField(f) && f.htype == Repeated && GoodItems(f, items) && Partial(f, items, a, k) && k < |items|
    ensures DecItem(f, a, SerValue(f, items[k]) + rest) == Ok(a', rest)
    ensures Partial(f, items, a', k + 1)
    decreases f, 1
  {
    ValueRoundTrip(f, items[k], a.items[k], rest);
    var v := DecValue(f, a.items[k], SerValue(f, items[k]) + rest).value;
    a' := Filled(a.items[k := v], k + 1);
  }

  lemma SerValueNonEmpty(f: Field, v: Value)
    requires f.Packable() && ShapedValue(f, v)
    ensures SerValue(f, v) != []
  {
  }

  /** The body of a packed array, from item `k` on. */
  lemma {:induction false} PackedRoundTrip(f: Field, items: seq<Value>, a: Filled, k: nat) returns (a': Filled)
    requires ValidField(f) && f.htype == Repeated && f.Packable() && GoodItems(f, items) && Partial(f, items, a, k)
    ensures DecPacked(f, a, SerItems(f, items[k..])) == Some(a')
    ensures Partial(f, items, a', |items|)
    decreases f, 2, |items| - k
  {
    if k == |items| {
      a' := a;
    } else {
      var rest := SerItems(f, items[k..][1..]);
      assert items[k..][1..] == items[k + 1..];
      var a1 := ItemRoundTrip(f, items, a, k, rest);
      SerValueNonEmpty(f, items[k]);
      a' := PackedRoundTrip(f, items, a1, k + 1);
    }
  }

  /** The state inside an array: storing items and looking at them again. */
  lemma InsideArray(fields: seq<Field>, st: State, i: nat, a: Filled)
    requires RepeatedSlot(fields, st, i)
    ensures var st1 := WithItems(fields, st, i, a);
            && RepeatedSlot(fields, st1, i) && ItemsAt(fields, st1, i) == a && EnterFixed(fields, st1, i) == Some(st1)
            && (fields[i].FixedCount() ==> st1.fixedField == Some(i))
            && forall b :: WithItems(fields, st1, i, b) == WithItems(fields, st, i, b)
  {
    assert SlotOf(fields, i) == i;
    var st1 := WithItems(fields, st, i, a);
    forall b ensures WithItems(fields, st1, i, b) == WithItems(fields, st, i, b) {
      var slot := if fields[i].FixedCount() then Array(b.items) else Counted(b.count, b.items);
      assert st1.slots[i := slot] == st.slots[i := slot];
    }
  }

  /** One keyed item: a whole turn of the message loop. */
  lemma {:induction false} KeyedItemTurn(fields: seq<Field>, st: State, i: nat, items: seq<Value>, k: nat, y: bytes)
    returns (a: Filled)
    requires ValidFields(fields) && RepeatedSlot(fields, st, i)
    requires EnterFixed(fields, st, i).Some?
    requires k < |items| && GoodItems(fields[i], items) && Partial(fields[i], items, ItemsAt(fields, st, i), k)
    ensures Run(fields, st, Key(fields[i].tag, WireType(fields[i])) + SerValue(fields[i], items[k]) + y)
         == Run(fields, WithItems(fields, st, i, a), y)
    ensures Partial(fields[i], items, a, k + 1)
    decreases fields, 0, 0
  {
    var f := fields[i];
    assert ValidField(f);
    var payload := SerValue(f, items[k]);
    assert payload + [] == payload;
    a := ItemRoundTrip(f, items, ItemsAt(fields, st, i), k, []);
    RepeatedTurn(fields, st, i, WireType(f), payload, a);
    RunOne(fields, st, Key(f.tag, WireType(f)) + payload, y);
  }

  /** The keyed items of an unpacked array, from item `k` on. */
  lemma {:induction false} KeyedRoundTrip(fields: seq<Field>, st: State, i: nat, items: seq<Value>, k: nat, y: bytes)
    returns (a': Filled)
    requires ValidFields(fields) && RepeatedSlot(fields, st, i)
    requires EnterFixed(fields, st, i).Some?
    requires k < |items| && GoodItems(fields[i], items) && Partial(fields[i], items, ItemsAt(fields, st, i), k)
    ensures Run(fields, st, SerKeyedItems(fields[i], items[k..]) + y) == Run(fields, WithItems(fields, st, i, a'), y)
    ensures Partial(fields[i], items, a', |items|)
    decreases fields, 0, |items| - k
  {
    var f := fields[i];
    var x, rest := Key(f.tag, WireType(f)) + SerValue(f, items[k]), SerKeyedItems(f, items[k + 1..]);
    assert SerKeyedItems(f, items[k..]) + y == x + (rest + y) by {
      assert items[k..][1..] == items[k + 1..];
    }
    a' := KeyedItemTurn(fields, st, i, items, k, rest + y);
    if k + 1 == |items| {
      assert rest + y == y;
    } else {
      var st1 := WithItems(fields, st, i, a');
      InsideArray(fields, st, i, a');
      a' := KeyedRoundTrip(fields, st1, i, items, k + 1, y);
    }
  }

  lemma {:induction false} ArrayRoundTrip(fields: seq<Field>, msg: seq<Slot>, st: State, i: nat, y: bytes)
    returns (st': State)
    requires EntryWellFormed(fields, msg, i) && At(fields, msg, st, i) && fields[i].htype == Repeated
    requires SerSlot(fields[i], msg[SlotOf(fields, i)]) != []
    ensures Run(fields, st, SerSlot(fields[i], msg[SlotOf(fields, i)]) + y) == Run(fields, st', y)
    ensures At(fields, msg, st', i + 1)
    decreases fields, 0
  {
    var f, items := fields[i], Live(msg[i]);
    ArrayReady(fields, msg, st, i);
    forall k | 0 <= k < |items| ensures DecodableValue(f, items[k]) { assert DecodableValue(f, LiveValues(f, msg[i])[k]); }
    assert GoodItems(f, items);
    var a';
    if f.Packable() {
      var body := SerItems(f, items);
      assert items[0..] == items;
      a' := PackedRoundTrip(f, items, ItemsAt(fields, st, i), 0);
      WindowOfPrefixed(body, []);
      assert Prefixed(body) + [] == Prefixed(body);
      RepeatedTurn(fields, st, i, WT_STRING, Prefixed(body), a');
      RunOne(fields, st, Key(f.tag, WT_STRING) + Prefixed(body), y);
    } else {
      assert items[0..] == items;
      a' := KeyedRoundTrip(fields, st, i, items, 0, y);
    }
    st' := WithItems(fields, st, i, a');
    ArrayAgrees(fields, msg, st, i, a');
  }

  lemma ArrayReady(fields: seq<Field>, msg: seq<Slot>, st: State, i: nat)
    requires EntryEncodable(fields, msg, i) && At(fields, msg, st, i) && fields[i].htype == Repeated
    requires SerSlot(fields[i], msg[SlotOf(fields, i)]) != []
    ensures var f, items := fields[i], Live(msg[i]);
            && SlotOf(fields, i) == i && ValidField(f) && RepeatedSlot(fields, st, i) && EnterFixed(fields, st, i).Some?
            && items != [] && Partial(f, items, ItemsAt(fields, st, i), 0)
            && (forall k | 0 <= k < |items| :: ShapedValue(f, items[k]) && EncodableValue(f, items[k]))
            && LiveValues(f, msg[i]) == items && SerSlot(f, msg[i]) == SerArray(f, items)
  {
    assert SlotOf(fields, i) == i;
    assert ValidField(fields[i]) && ShapedSlot(fields, i, msg[i]) && SlotAgrees(fields, msg, st.slots, i, i);
    assert ShapedSlot(fields, i, st.slots[i]);
    var f, s := fields[i], msg[i];
    assert EncodableSlot(f, s);
    forall k | 0 <= k < |Live(s)| ensures ShapedValue(f, Live(s)[k]) { assert Live(s)[k] == s.items[k]; }
  }

  lemma ArrayAgrees(fields: seq<Field>, msg: seq<Slot>, st: State, i: nat, a: Filled)
    requires EntryWellFormed(fields, msg, i) && At(fields, msg, st, i) && fields[i].htype == Repeated
    requires Partial(fields[i], Live(msg[i]), a, |Live(msg[i])|)
    ensures At(fields, msg, WithItems(fields, st, i, a), i + 1)
  {
    var f := fields[i];
    assert SlotOf(fields, i) == i;
    assert ShapedSlot(fields, i, msg[i]) && EncodableSlot(f, msg[i]) && SlotAgrees(fields, msg, st.slots, i, i);
    var slot := if f.FixedCount() then Array(a.items) else Counted(a.count, a.items);
    assert SameSlot(fields, i, msg[i], slot);
    AgreesNext(fields, msg, st.slots, i, slot);
  }

  // ---------------------------------------------------------------- the law

  /** pb_decode of what pb_encode wrote succeeds, consumes all of it and gives the message back. */
  lemma DecodeInvertsEncode(fields: seq<Field>, msg: seq<Slot>, dest: seq<Slot>)
    requires WellFormed(fields, msg) && Shaped(fields, dest)
    ensures var p := Decode(fields, dest, Ser(fields, msg));
            p.Ok? && p.rest == [] && Shaped(fields, p.value) && Same(fields, msg, p.value)
  {
    DefaultsAreFresh(fields, dest);
    MessageRoundTrip(fields, msg, Defaults(fields, dest));
  }
}
