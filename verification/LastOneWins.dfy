/** A field that comes more than once and is not repeated: the last value wins, and submessages are merged. */
module LastOneWins {
  import opened Bits
  import opened Descriptor
  import opened Varints
  import opened Serialize
  import opened Deserialize
  import opened Equivalence
  import opened Freshness
  import opened Extend
  import opened RoundTrip
  import opened Merging
  import opened Shapes
  import opened Turns
  import opened Unterminated

  // ---------------------------------------------------------------- items

  /** What stands behind the terminator does not matter. */
  lemma {:induction false} TerminatedFront(data: bytes, a: bytes, b: bytes)
    ensures CString(data + [0] + a) == CString(data + [0] + b)
  {
    var x, y := data + [0] + a, data + [0] + b;
    if data != [] && data[0] != 0 {
      assert x[1..] == data[1..] + [0] + a && y[1..] == data[1..] + [0] + b;
      TerminatedFront(data[1..], a, b);
    }
  }

  lemma StringOverwritten(data: bytes, a: bytes, b: bytes)
    requires |data| < |a| == |b|
    ensures CString(Overwrite(a, data + [0])) == CString(Overwrite(b, data + [0]))
  {
    TerminatedFront(data, a[|data| + 1..], b[|data| + 1..]);
  }

  /** Apart from submessages, what an item stands for once decoded does not depend on what it held before. */
  lemma LastValueWins(f: Field, was: Value, other: Value, s: bytes)
    requires ValidField(f) && f.ltype != Submessage && ShapedValue(f, was) && ShapedValue(f, other)
    ensures var p, q := DecValue(f, was, s), DecValue(f, other, s);
            && (p.Ok? <==> q.Ok?)
            && (p.Ok? ==> p.rest == q.rest && SameValue(f, p.value, q.value))
            && (f.ltype != Bytes && f.ltype != String ==> p == q)
  {
    hide CString, Overwrite, Dec32, Dec64;
    match f.ltype
    case String =>
      if DecValue(f, was, s).Ok? { StringOverwritten(Window(s).value, was.buf, other.buf); }
    case Bytes =>
      if DecValue(f, was, s).Ok? { BytesOverwritten(Window(s).value, was.buf, other.buf); }
    case _ =>
  }

  lemma BytesOverwritten(data: bytes, a: bytes, b: bytes)
    requires |data| <= |a| == |b|
    ensures var x, y := Overwrite(a, data), Overwrite(b, data);
            |x| == |y| == |a| && x[..|data|] == y[..|data|] == data
  {
  }

  /** What the second of two payloads of a submessage leaves, read into what the first one left. */
  function InTurn(f: Field, was: Value, x: bytes, y: bytes): Parsed<Value> {
    match DecValue(f, was, Prefixed(x))
    case Fail => Fail
    case Ok(v, _) => DecValue(f, v, Prefixed(y))
  }

  /** The payloads begin and end their fixed-count arrays with the same one. */
  predicate PayloadsClash(f: Field, was: Value, x: bytes, y: bytes)
    requires was.MessageV?
  {
    match DecodeNoinit(f.sub, was.slots, x)
    case Fail => false
    case Ok(mid, _) => Clashes(f.sub, Tags(f.sub, Start(was.slots), x), Tags(f.sub, Start(mid), y))
  }

  lemma PayloadDecoded(f: Field, was: Value, x: bytes, rest: bytes)
    requires f.ltype == Submessage && f.htype != Repeated && was.MessageV? && |x| < U32
    ensures var p := DecodeNoinit(f.sub, was.slots, x);
            DecValue(f, was, Prefixed(x) + rest) == if p.Ok? then Ok(MessageV(p.value), rest) else Fail
  {
    hide Prefixed, Window, DecodeNoinit;
    WindowOfPrefixed(x, rest);
  }

  /** Two payloads of a submessage in turn are their concatenation, unless their fixed-count arrays clash. */
  lemma PayloadsMerge(f: Field, was: Value, x: bytes, y: bytes, rest: bytes)
    requires ValidField(f) && f.ltype == Submessage && f.htype != Repeated && ShapedValue(f, was)
    requires |x| + |y| < U32 && InTurn(f, was, x, y).Ok?
    requires !Run(f.sub, Start(was.slots), x).Failed? && !Run(f.sub, Start(was.slots), x).zero
    ensures DecValue(f, was, Prefixed(x + y) + rest)
         == if PayloadsClash(f, was, x, y) then Fail else Ok(InTurn(f, was, x, y).value, rest)
  {
    hide Run, Tags, Clashes, DecodeNoinit, Prefixed, DecValue;
    Alone(x);
    Alone(y);
    PayloadDecoded(f, was, x, []);
    var mid := DecodeNoinit(f.sub, was.slots, x).value;
    PayloadDecoded(f, MessageV(mid), y, []);
    PayloadDecoded(f, was, x + y, rest);
    MergeExactly(f.sub, was.slots, x, y);
  }

  lemma Alone(x: bytes)
    ensures Prefixed(x) + [] == Prefixed(x)
  {
    hide Prefixed;
  }

  // ---------------------------------------------------------------- fields of a message

  /** What an entry's item is decoded over: a union that held another member starts anew. */
  function HeldBy(f: Field, slot: Slot): Value {
    match slot
    case Single(v) => v
    case Has(_, v) => v
    case Union(which, v) => if which == f.tag then v else FreshMember(f)
    case _ => ZeroValue(f)
  }

  lemma SingleSlot(f: Field, slot: Slot, n: nat, wireType: nat, s: bytes)
    requires f.htype != Repeated && SlotFits(f, slot)
    ensures var p := DecValue(f, HeldBy(f, slot), s);
            DecSlot(f, slot, n, wireType, s) == if p.Ok? then Ok((Filled1(f, p.value), n), p.rest) else Fail
    ensures forall v :: HeldBy(f, Filled1(f, v)) == v
  {
    hide DecValue, ShapedValue, FreshMember;
  }

  /** A turn of the loop on the key and item of an entry that is not repeated. */
  lemma SingleTurn(fields: seq<Field>, st: State, i: nat, payload: bytes, v: Value, z: bytes)
    requires ValidFields(fields) && i < |fields| == |st.slots| && fields[i].htype != Repeated
    requires SlotFits(fields[i], st.slots[SlotOf(fields, i)])
    requires DecValue(fields[i], HeldBy(fields[i], st.slots[SlotOf(fields, i)]), payload) == Ok(v, [])
    ensures var h, f := SlotOf(fields, i), fields[i];
            Run(fields, st, Key(f.tag, WireType(f)) + payload + z)
            == Run(fields, MarkSeen(fields, st, i).(slots := st.slots[h := Filled1(f, v)]), z)
  {
    hide DecValue, DecSlot, HeldBy, Key, SlotFits, Filled1, ValidFields, SlotOf;
    var f, h := fields[i], SlotOf(fields, i);
    SingleSlot(f, st.slots[h], st.fixedCount, WireType(f), payload);
    KeyedTurn(fields, st, i, WireType(f), payload, Filled1(f, v), st.fixedCount);
    KeyNotEmpty(f.tag, WireType(f));
    RunOne(fields, st, Key(f.tag, WireType(f)) + payload, z);
  }

  /** A field as an encoder puts it out. */
  function OnWire(f: Field, payload: bytes): bytes {
    Key(f.tag, WireType(f)) + payload
  }

  /** Two entries that are not repeated and keep their data in the same slot: one entry, or two members of a union. */
  predicate Sharing(fields: seq<Field>, slots: seq<Slot>, i: nat, j: nat) {
    && ValidFields(fields) && Shaped(fields, slots) && i < |fields| && j < |fields|
    && SlotOf(fields, i) == SlotOf(fields, j) && fields[i].htype != Repeated
  }

  lemma SharingFits(fields: seq<Field>, slots: seq<Slot>, i: nat, j: nat)
    requires Sharing(fields, slots, i, j)
    ensures |slots| == |fields| && ValidField(fields[i]) && ValidField(fields[j])
    ensures fields[j].htype != Repeated && (i != j ==> fields[i].htype == fields[j].htype == Oneof)
    ensures i != j ==> fields[i].tag != fields[j].tag
    ensures SlotFits(fields[i], slots[SlotOf(fields, i)]) && SlotFits(fields[j], slots[SlotOf(fields, i)])
  {
    ShapedFits(fields, slots, i);
    ShapedFits(fields, slots, j);
    OnlyUnionsShare(fields, i, j);
    OnlyUnionsShare(fields, j, i);
  }

  lemma {:induction false} OnlyUnionsShare(fields: seq<Field>, i: nat, j: nat)
    requires i < |fields| && j < |fields| && SlotOf(fields, i) == SlotOf(fields, j)
    ensures i != j ==> fields[i].htype == Oneof
  {
    SlotOfOneof(fields, i);
    SlotOfOneof(fields, j);
  }

  /** Reading one and then the other is reading the other alone, with what makes it hold the same. */
  lemma Replaced(fields: seq<Field>, st: State, i: nat, j: nat, p: bytes, q: bytes, r: bytes, v: Value, w: Value,
                 z: bytes)
    requires Sharing(fields, st.slots, i, j)
    requires var slot := st.slots[SlotOf(fields, i)];
             && DecValue(fields[i], HeldBy(fields[i], slot), p) == Ok(v, [])
             && DecValue(fields[j], HeldBy(fields[j], Filled1(fields[i], v)), q) == Ok(w, [])
             && DecValue(fields[j], HeldBy(fields[j], slot), r) == Ok(w, [])
    ensures Run(fields, st, OnWire(fields[i], p) + (OnWire(fields[j], q) + z))
         == Run(fields, st, OnWire(fields[j], r) + z)
  {
    hide DecValue, DecSlot, HeldBy, Key, ValidFields, ValidField, Run, Shaped, SlotFits, Filled1;
    var f, g, h := fields[i], fields[j], SlotOf(fields, i);
    SharingFits(fields, st.slots, i, j);
    SingleTurn(fields, st, i, p, v, OnWire(g, q) + z);
    var st1 := MarkSeen(fields, st, i).(slots := st.slots[h := Filled1(f, v)]);
    StillFits(fields, st.slots, i, j, p, v);
    SingleTurn(fields, st1, j, q, w, z);
    SingleTurn(fields, st, j, r, w, z);
    assert st1.slots[h := Filled1(g, w)] == st.slots[h := Filled1(g, w)];
    var a, b := MarkSeen(fields, st1, j), MarkSeen(fields, st, j);
    assert a.seen == b.seen;
  }

  lemma StillFits(fields: seq<Field>, slots: seq<Slot>, i: nat, j: nat, p: bytes, v: Value)
    requires Sharing(fields, slots, i, j)
    requires DecValue(fields[i], HeldBy(fields[i], slots[SlotOf(fields, i)]), p) == Ok(v, [])
    ensures SlotFits(fields[j], Filled1(fields[i], v))
  {
    hide DecValue;
    var f, slot := fields[i], slots[SlotOf(fields, i)];
    SharingFits(fields, slots, i, j);
    FreshMemberIsFresh(f);
    assert ShapedValue(f, HeldBy(f, slot));
    ValueShaped(f, HeldBy(f, slot), p);
  }

  // ---------------------------------------------------------------- the laws

  /**
   A field with an embedded message that comes twice, in the middle of any message, has the effect of one with both
   payloads in one, unless their fixed-count arrays clash; then that one is refused.
   */
  lemma EmbeddedMerge(fields: seq<Field>, st: State, i: nat, x: bytes, y: bytes, z: bytes)
    requires ValidFields(fields) && Shaped(fields, st.slots) && i < |fields|
    requires fields[i].ltype == Submessage && fields[i].htype != Repeated && |x| + |y| < U32
    requires var was := HeldBy(fields[i], st.slots[SlotOf(fields, i)]);
             && was.MessageV? && InTurn(fields[i], was, x, y).Ok?
             && !Run(fields[i].sub, Start(was.slots), x).Failed? && !Run(fields[i].sub, Start(was.slots), x).zero
    ensures var f, was := fields[i], HeldBy(fields[i], st.slots[SlotOf(fields, i)]);
            Run(fields, st, OnWire(f, Prefixed(x + y)) + z)
            == if PayloadsClash(f, was, x, y) then Failed
               else Run(fields, st, OnWire(f, Prefixed(x)) + (OnWire(f, Prefixed(y)) + z))
  {
    hide DecodeNoinit, Run, Prefixed, Key, HeldBy, Clashes, Tags, DecSlot;
    var f, was := fields[i], HeldBy(fields[i], st.slots[SlotOf(fields, i)]);
    SharingFits(fields, st.slots, i, i);
    HeldShaped(f, st.slots[SlotOf(fields, i)]);
    SubmessagePayloads(f, was, x, y);
    PayloadsMerge(f, was, x, y, []);
    PayloadsMerge(f, was, x, y, z);
    Alone(x + y);
    hide DecValue, PayloadsClash, InTurn;
    if PayloadsClash(f, was, x, y) {
      SingleSlot(f, st.slots[SlotOf(fields, i)], st.fixedCount, WireType(f), Prefixed(x + y) + z);
      ErrorTurn(fields, st, i, WireType(f), Prefixed(x + y), z);
    } else {
      FilledHolds(f, DecValue(f, was, Prefixed(x)).value);
      Replaced(fields, st, i, i, Prefixed(x), Prefixed(y), Prefixed(x + y),
               DecValue(f, was, Prefixed(x)).value, InTurn(f, was, x, y).value, z);
    }
  }

  lemma HeldShaped(f: Field, slot: Slot)
    requires ValidField(f) && f.htype != Repeated && SlotFits(f, slot)
    ensures ShapedValue(f, HeldBy(f, slot))
  {
    FreshMemberIsFresh(f);
  }

  lemma FilledHolds(f: Field, v: Value)
    ensures HeldBy(f, Filled1(f, v)) == v
  {
  }

  /** Payloads that decode are used up. */
  lemma SubmessagePayloads(f: Field, was: Value, x: bytes, y: bytes)
    requires f.ltype == Submessage && f.htype != Repeated && was.MessageV? && |x| + |y| < U32
    requires InTurn(f, was, x, y).Ok?
    ensures var p := DecValue(f, was, Prefixed(x)); p.Ok? && p.rest == [] && p.value.MessageV?
    ensures InTurn(f, was, x, y).rest == []
    ensures DecValue(f, DecValue(f, was, Prefixed(x)).value, Prefixed(y)) == InTurn(f, was, x, y)
  {
    hide DecodeNoinit, Prefixed, DecValue;
    Alone(x);
    Alone(y);
    PayloadDecoded(f, was, x, []);
    PayloadDecoded(f, DecValue(f, was, Prefixed(x)).value, y, []);
  }

  /** The items that are neither submessages nor kept in buffers: a later one makes an earlier one as if never sent. */
  lemma LastScalarWins(fields: seq<Field>, st: State, i: nat, p: bytes, q: bytes, z: bytes)
    requires ValidFields(fields) && Shaped(fields, st.slots) && i < |fields| && fields[i].htype != Repeated
    requires fields[i].ltype !in {Bytes, String, Submessage}
    requires var was := HeldBy(fields[i], st.slots[SlotOf(fields, i)]);
             && DecValue(fields[i], was, p).Ok? && DecValue(fields[i], was, p).rest == []
             && DecValue(fields[i], was, q).Ok? && DecValue(fields[i], was, q).rest == []
    ensures Run(fields, st, OnWire(fields[i], p) + (OnWire(fields[i], q) + z))
         == Run(fields, st, OnWire(fields[i], q) + z)
  {
    hide DecValue, Run, Key, HeldBy, DecSlot;
    var f, was := fields[i], HeldBy(fields[i], st.slots[SlotOf(fields, i)]);
    SharingFits(fields, st.slots, i, i);
    HeldShaped(f, st.slots[SlotOf(fields, i)]);
    var v := DecValue(f, was, p).value;
    ValueShaped(f, was, p);
    FilledHolds(f, v);
    LastValueWins(f, was, v, q);
    Replaced(fields, st, i, i, p, q, q, v, DecValue(f, was, q).value, z);
  }

  /** Of two members of a union the later one makes the earlier one as if never sent, whatever their types. */
  lemma LastMemberWins(fields: seq<Field>, st: State, i: nat, j: nat, p: bytes, q: bytes, z: bytes)
    requires ValidFields(fields) && Shaped(fields, st.slots) && i < |fields| && j < |fields| && i != j
    requires SlotOf(fields, i) == SlotOf(fields, j)
    requires var slot := st.slots[SlotOf(fields, j)];
             && (slot.Union? ==> slot.which != fields[j].tag)
             && DecValue(fields[i], HeldBy(fields[i], slot), p).Ok?
             && DecValue(fields[i], HeldBy(fields[i], slot), p).rest == []
             && DecValue(fields[j], FreshMember(fields[j]), q).Ok?
             && DecValue(fields[j], FreshMember(fields[j]), q).rest == []
    ensures Run(fields, st, OnWire(fields[i], p) + (OnWire(fields[j], q) + z))
         == Run(fields, st, OnWire(fields[j], q) + z)
  {
    hide DecValue, Run, Key, FreshMember, DecSlot;
    OnlyUnionsShare(fields, i, j);
    SharingFits(fields, st.slots, i, j);
    var f, g, slot := fields[i], fields[j], st.slots[SlotOf(fields, i)];
    var v := DecValue(f, HeldBy(f, slot), p).value;
    assert HeldBy(g, Filled1(f, v)) == HeldBy(g, slot) == FreshMember(g);
    Replaced(fields, st, i, j, p, q, q, v, DecValue(g, FreshMember(g), q).value, z);
  }
}
