/** The fields that a run of the message loop reads, and what their tags say about its outcome. */
module Turns {
  import opened Descriptor
  import opened Options
  import opened Varints
  import opened Serialize
  import opened Deserialize
  import opened Shapes

  /** The tags of the fields read, in order. */
  function Tags(fields: seq<Field>, st: State, s: bytes): seq<nat>
    decreases |s|
  {
    if s == [] then []
    else
      match Step(fields, st, s)
      case Next(st', r) => [Dec32(s).value / 8] + Tags(fields, st', r)
      case _ => []
  }

  /** The entry of a fixed-count array that the tag names, if it does. */
  function FixedEntry(fields: seq<Field>, tag: nat): (r: Option<nat>)
    ensures r.Some? ==> r.value < |fields| && fields[r.value].FixedCount()
  {
    match FindTag(fields, tag)
    case None => None
    case Some(i) => if fields[i].FixedCount() then Some(i) else None
  }

  function FirstFixed(fields: seq<Field>, tags: seq<nat>): (r: Option<nat>)
    ensures r.Some? ==> r.value < |fields| && fields[r.value].FixedCount()
  {
    if tags == [] then None
    else if FixedEntry(fields, tags[0]).Some? then FixedEntry(fields, tags[0])
    else FirstFixed(fields, tags[1..])
  }

  function LastFixed(fields: seq<Field>, tags: seq<nat>): (r: Option<nat>)
    ensures r.Some? ==> r.value < |fields| && fields[r.value].FixedCount()
  {
    if tags == [] then None
    else if LastFixed(fields, tags[1..]).Some? then LastFixed(fields, tags[1..])
    else FixedEntry(fields, tags[0])
  }

  // ---------------------------------------------------------------- fixed-count runs

  function Retracked(st: State, fixedField: Option<nat>, fixedCount: nat): State {
    st.(fixedField := fixedField, fixedCount := fixedCount)
  }

  function TurnRetracked(t: Turn, fixedField: Option<nat>, fixedCount: nat): Turn {
    match t
    case Next(st, r) => Next(Retracked(st, fixedField, fixedCount), r)
    case _ => t
  }

  /** Other fields neither look at the fixed-count run nor change it. */
  lemma OtherField(fields: seq<Field>, st: State, s: bytes, fixedField: Option<nat>, fixedCount: nat)
    requires Dec32(s).Ok? ==> FixedEntry(fields, Dec32(s).value / 8).None?
    ensures Step(fields, Retracked(st, fixedField, fixedCount), s)
         == TurnRetracked(Step(fields, st, s), fixedField, fixedCount)
    ensures Step(fields, st, s).Next? ==>
      Retracked(Step(fields, st, s).st, st.fixedField, st.fixedCount) == Step(fields, st, s).st
  {
    hide DecValue, DecRepeated, Dec32, Skip, RequiredBefore;
    if Dec32(s).Ok? && Dec32(s).value != 0 && FindTag(fields, Dec32(s).value / 8).Some? {
      var i := FindTag(fields, Dec32(s).value / 8).value;
      OtherKnown(fields, st, i, Dec32(s).value % 8, Dec32(s).rest, fixedField, fixedCount);
    }
  }

  lemma OtherKnown(fields: seq<Field>, st: State, i: nat, wireType: nat, s: bytes, fixedField: Option<nat>, fixedCount: nat)
    requires i < |fields| && !fields[i].FixedCount()
    ensures KnownField(fields, Retracked(st, fixedField, fixedCount), i, wireType, s)
         == TurnRetracked(KnownField(fields, st, i, wireType, s), fixedField, fixedCount)
    ensures KnownField(fields, st, i, wireType, s).Next? ==>
      Retracked(KnownField(fields, st, i, wireType, s).st, st.fixedField, st.fixedCount)
      == KnownField(fields, st, i, wireType, s).st
  {
    hide DecValue, DecRepeated, RequiredBefore;
    var h := SlotOf(fields, i);
    if h < |st.slots| {
      OtherSlot(fields[i], st.slots[h], st.fixedCount, fixedCount, wireType, s);
    }
  }

  /** Decoding into such a slot hands the running count through. */
  lemma OtherSlot(f: Field, slot: Slot, n: nat, n': nat, wireType: nat, s: bytes)
    requires !f.FixedCount()
    ensures DecSlot(f, slot, n, wireType, s).Ok? <==> DecSlot(f, slot, n', wireType, s).Ok?
    ensures DecSlot(f, slot, n, wireType, s).Ok? ==>
      var p, p' := DecSlot(f, slot, n, wireType, s), DecSlot(f, slot, n', wireType, s);
      p.value == (p'.value.0, n) && p'.value.1 == n' && p.rest == p'.rest
  {
    hide DecValue, DecRepeated;
  }

  /** A run ends in the fixed-count run of the last such field it read. */
  lemma {:induction false} LastEntered(fields: seq<Field>, st: State, s: bytes)
    requires Run(fields, st, s).Done?
    ensures var last := LastFixed(fields, Tags(fields, st, s));
            Run(fields, st, s).st.fixedField == if last.Some? then last else st.fixedField
    decreases |s|
  {
    if s != [] && Step(fields, st, s).Next? {
      var st', r := Step(fields, st, s).st, Step(fields, st, s).rest;
      LastEntered(fields, st', r);
      assert Tags(fields, st, s)[1..] == Tags(fields, st', r);
      var tag := Dec32(s).value / 8;
      if FixedEntry(fields, tag).None? {
        OtherField(fields, st, s, None, 0);
      } else {
        FixedFieldEntered(fields, st, s);
      }
    }
  }

  lemma FixedFieldEntered(fields: seq<Field>, st: State, s: bytes)
    requires Step(fields, st, s).Next? && FixedEntry(fields, Dec32(s).value / 8).Some?
    ensures Step(fields, st, s).st.fixedField == FixedEntry(fields, Dec32(s).value / 8)
  {
    hide DecSlot, Dec32;
  }

  /** The same ending, but for how the fixed-count run is kept. */
  predicate SameEnd(fields: seq<Field>, o: Outcome, p: Outcome) {
    && o.Done? && p.Done?
    && o.st.slots == p.st.slots && o.st.seen == p.st.seen && o.rest == p.rest && o.zero == p.zero
    && (FixedDone(fields, o.st) <==> FixedDone(fields, p.st))
  }

  /** A completed fixed-count run behind the start does not matter, unless the first such field is the same again. */
  lemma {:induction false} NoClash(fields: seq<Field>, st: State, i: nat, s: bytes)
    requires i < |fields| && st.fixedField.None? && st.fixedCount == 0 && Run(fields, st, s).Done?
    requires FirstFixed(fields, Tags(fields, st, s)) != Some(i) || fields[i].arraySize == 0
    ensures SameEnd(fields, Run(fields, st, s), Run(fields, Retracked(st, Some(i), fields[i].arraySize), s))
    decreases |s|
  {
    if s != [] {
      var n := fields[i].arraySize;
      if Dec32(s).Ok? && FixedEntry(fields, Dec32(s).value / 8).Some? {
        if Step(fields, st, s).Next? { assert Tags(fields, st, s)[0] == Dec32(s).value / 8; }
        EntersAnew(fields, st, i, s);
      } else {
        OtherField(fields, st, s, Some(i), n);
        if Step(fields, st, s).Next? {
          var st', r := Step(fields, st, s).st, Step(fields, st, s).rest;
          assert Tags(fields, st, s)[1..] == Tags(fields, st', r);
          NoClash(fields, st', i, r);
        }
      }
    }
  }

  lemma EntersAnew(fields: seq<Field>, st: State, i: nat, s: bytes)
    requires i < |fields| && st.fixedField.None? && st.fixedCount == 0
    requires Dec32(s).Ok? && FixedEntry(fields, Dec32(s).value / 8).Some?
    requires FixedEntry(fields, Dec32(s).value / 8) != Some(i) || fields[i].arraySize == 0 || Dec32(s).value == 0
    ensures Step(fields, Retracked(st, Some(i), fields[i].arraySize), s) == Step(fields, st, s)
  {
    hide DecSlot, Dec32, RequiredBefore;
    var again := Retracked(st, Some(i), fields[i].arraySize);
    if Dec32(s).value != 0 {
      var j := FindTag(fields, Dec32(s).value / 8).value;
      assert EnterFixed(fields, st, j) == EnterFixed(fields, again, j);
    }
  }

  // ---------------------------------------------------------------- a full array

  lemma {:induction false} PackedGrows(f: Field, a: Filled, w: bytes)
    requires DecPacked(f, a, w).Some?
    ensures DecPacked(f, a, w).value.count >= a.count + if w == [] then 0 else 1
    decreases f.arraySize - a.count
  {
    hide DecValue;
    if w != [] {
      PackedGrows(f, DecItem(f, a, w).value, DecItem(f, a, w).rest);
    }
  }

  /** What starts an array without storing an item can be read into a full one; anything else cannot. */
  lemma FullArray(f: Field, items: seq<Value>, wireType: nat, s: bytes)
    requires f.arraySize > 0 && DecRepeated(f, Filled(items, 0), wireType, s).Ok?
    ensures var p := DecRepeated(f, Filled(items, 0), wireType, s);
            var q := DecRepeated(f, Filled(items, f.arraySize), wireType, s);
            if p.value.count == 0 then p.value.items == items && q == Ok(Filled(items, f.arraySize), p.rest) else q == Fail
  {
    hide DecValue;
    if wireType == WT_STRING && f.Packable() {
      var w, full := Window(s).value, Filled(items, f.arraySize);
      PackedGrows(f, Filled(items, 0), w);
      assert DecItem(f, full, w) == Fail;
      assert DecPacked(f, full, w) == if w == [] then Some(full) else None;
    }
  }

  /** The state has just entered the run of entry `i`, or is about to. */
  predicate AtStartOf(st: State, i: nat) {
    st.fixedCount == 0 && (st.fixedField.None? || st.fixedField == Some(i))
  }

  lemma FullField(fields: seq<Field>, st: State, i: nat, wireType: nat, s: bytes)
    requires ValidFields(fields) && Shaped(fields, st.slots) && AtStartOf(st, i)
    requires i < |fields| && fields[i].FixedCount() && fields[i].arraySize > 0
    requires KnownField(fields, st, i, wireType, s).Next?
    ensures var n, t := fields[i].arraySize, KnownField(fields, st, i, wireType, s);
            && t.st.fixedField == Some(i)
            && KnownField(fields, Retracked(st, Some(i), n), i, wireType, s)
               == if t.st.fixedCount == 0 then TurnRetracked(t, Some(i), n) else Error
  {
    hide DecRepeated, RequiredBefore;
    ShapedFits(fields, st.slots, i);
    assert SlotOf(fields, i) == i;
    FullArray(fields[i], st.slots[i].items, wireType, s);
  }

  lemma FullStep(fields: seq<Field>, st: State, i: nat, s: bytes)
    requires ValidFields(fields) && Shaped(fields, st.slots) && AtStartOf(st, i)
    requires Step(fields, st, s).Next? && FixedEntry(fields, Dec32(s).value / 8) == Some(i) && fields[i].arraySize > 0
    ensures var n, t := fields[i].arraySize, Step(fields, st, s);
            && t.st.fixedField == Some(i)
            && Step(fields, Retracked(st, Some(i), n), s)
               == if t.st.fixedCount == 0 then TurnRetracked(t, Some(i), n) else Error
  {
    hide KnownField, Dec32, Shaped, ValidFields;
    FullField(fields, st, i, Dec32(s).value % 8, Dec32(s).rest);
  }

  /** The run of another fixed-count array cannot start while this one has nothing. */
  lemma NotEntered(fields: seq<Field>, st: State, i: nat, s: bytes)
    requires i < |fields| && fields[i].arraySize > 0 && st.fixedField == Some(i) && st.fixedCount == 0
    requires Step(fields, st, s).Next? && FixedEntry(fields, Dec32(s).value / 8).Some?
    ensures FixedEntry(fields, Dec32(s).value / 8) == Some(i)
  {
    hide DecSlot, Dec32, RequiredBefore;
  }

  lemma TurnHasKey(fields: seq<Field>, st: State, s: bytes)
    requires Step(fields, st, s).Next?
    ensures Dec32(s).Ok?
  {
    hide Dec32;
  }

  /** From a full array on, what completes it when it is empty is refused. */
  lemma {:induction false} Clash(fields: seq<Field>, st: State, i: nat, s: bytes)
    requires ValidFields(fields) && Shaped(fields, st.slots) && AtStartOf(st, i)
    requires i < |fields| && fields[i].FixedCount() && fields[i].arraySize > 0
    requires st.fixedField.None? ==> FirstFixed(fields, Tags(fields, st, s)) == Some(i)
    requires Run(fields, st, s).Done? && FixedDone(fields, Run(fields, st, s).st)
    ensures Run(fields, Retracked(st, Some(i), fields[i].arraySize), s) == Failed
    decreases |s|
  {
    hide Step, Shaped, ValidFields, Dec32;
    if s == [] {
      assert false;
    } else if Step(fields, st, s).Stop? {
      assert false;
    } else {
      TurnHasKey(fields, st, s);
      var st', r, tag := Step(fields, st, s).st, Step(fields, st, s).rest, Dec32(s).value / 8;
      StepShaped(fields, st, s);
      assert st.fixedField.None? ==> Tags(fields, st, s) == [tag] + Tags(fields, st', r);
      if FixedEntry(fields, tag).None? {
        OtherField(fields, st, s, Some(i), fields[i].arraySize);
        assert ([tag] + Tags(fields, st', r))[1..] == Tags(fields, st', r);
        Clash(fields, st', i, r);
      } else {
        if st.fixedField == Some(i) { NotEntered(fields, st, i, s); }
        FullStep(fields, st, i, s);
        if st'.fixedCount == 0 { Clash(fields, st', i, r); }
      }
    }
  }

  // ---------------------------------------------------------------- required fields

  /** The required entry with index `r`. */
  function RequiredEntry(fields: seq<Field>, n: nat, r: nat): (i: nat)
    requires n <= |fields| && r < RequiredBefore(fields, n)
    ensures i < n && fields[i].htype == Required && RequiredBefore(fields, i) == r
  {
    if fields[n - 1].htype == Required && RequiredBefore(fields, n - 1) == r then n - 1
    else RequiredEntry(fields, n - 1, r)
  }

  lemma {:induction false} RequiredIndexGrows(fields: seq<Field>, i: nat, j: nat)
    requires i < j <= |fields| && fields[i].htype == Required
    ensures RequiredBefore(fields, i) < RequiredBefore(fields, j)
    decreases j
  {
    if i < j - 1 { RequiredIndexGrows(fields, i, j - 1); }
  }

  lemma OneRequiredEntry(fields: seq<Field>, i: nat, j: nat)
    requires i < |fields| && j < |fields| && fields[i].htype == Required && fields[j].htype == Required
    requires RequiredBefore(fields, i) == RequiredBefore(fields, j)
    ensures i == j
  {
    if i < j { RequiredIndexGrows(fields, i, j); }
    if j < i { RequiredIndexGrows(fields, j, i); }
  }

  /** A turn sets the bit of the required entry its tag names, and no other. */
  lemma SeenInTurn(fields: seq<Field>, st: State, s: bytes, r: nat)
    requires DistinctTags(fields) && r < Tracked(fields) && Step(fields, st, s).Next?
    ensures r in Step(fields, st, s).st.seen
       <==> r in st.seen || fields[RequiredEntry(fields, |fields|, r)].tag == Dec32(s).value / 8
  {
    hide DecSlot, Dec32, Skip;
    var e, tag := RequiredEntry(fields, |fields|, r), Dec32(s).value / 8;
    FindOwnTag(fields, e);
    match FindTag(fields, tag)
    case None =>
    case Some(i) =>
      if fields[i].htype == Required && RequiredBefore(fields, i) == r { OneRequiredEntry(fields, i, e); }
  }

  lemma {:induction false} SeenInRun(fields: seq<Field>, st: State, s: bytes, r: nat)
    requires DistinctTags(fields) && r < Tracked(fields) && Run(fields, st, s).Done?
    ensures r in Run(fields, st, s).st.seen
       <==> r in st.seen || fields[RequiredEntry(fields, |fields|, r)].tag in Tags(fields, st, s)
    decreases |s|
  {
    hide Step, Dec32, DistinctTags, RequiredEntry;
    if s != [] && Step(fields, st, s).Next? {
      TurnHasKey(fields, st, s);
      SeenInTurn(fields, st, s, r);
      SeenInRun(fields, Step(fields, st, s).st, Step(fields, st, s).rest, r);
    }
  }

  /** The required entries in front of entry `i`. */
  function RequiredEarlier(fields: seq<Field>, i: nat): set<nat>
    requires i <= |fields|
  {
    set k: nat | k < i && fields[k].htype == Required
  }

  lemma {:induction false} RequiredIsCounted(fields: seq<Field>, i: nat)
    requires i <= |fields|
    ensures RequiredBefore(fields, i) == |RequiredEarlier(fields, i)|
  {
    if i > 0 {
      RequiredIsCounted(fields, i - 1);
      var before := RequiredEarlier(fields, i - 1);
      assert RequiredEarlier(fields, i) == if fields[i - 1].htype == Required then before + {i - 1} else before;
    }
  }

  /**
   Of the inputs that can be read and whose last fixed-count array is complete, exactly those decode in which
   each of the first 64 required fields occurs.
   */
  lemma RequiredExactly(fields: seq<Field>, slots: seq<Slot>, s: bytes)
    requires DistinctTags(fields) && Run(fields, Start(slots), s).Done?
    requires FixedDone(fields, Run(fields, Start(slots), s).st)
    ensures DecodeNoinit(fields, slots, s).Ok?
       <==> forall i | 0 <= i < |fields| && fields[i].htype == Required && |RequiredEarlier(fields, i)| < 64 ::
              fields[i].tag in Tags(fields, Start(slots), s)
  {
    hide Run, Tags, DistinctTags, FixedDone, RequiredEarlier;
    var seen, tags := Run(fields, Start(slots), s).st.seen, Tags(fields, Start(slots), s);
    forall i | 0 <= i < |fields| ensures RequiredBefore(fields, i) == |RequiredEarlier(fields, i)| {
      RequiredIsCounted(fields, i);
    }
    forall i | 0 <= i < |fields| && fields[i].htype == Required && RequiredBefore(fields, i) < PB_MAX_REQUIRED_FIELDS
      ensures RequiredBefore(fields, i) < Tracked(fields)
      ensures RequiredBefore(fields, i) in seen <==> fields[i].tag in tags
    {
      RequiredIndexGrows(fields, i, |fields|);
      var r := RequiredBefore(fields, i);
      OneRequiredEntry(fields, i, RequiredEntry(fields, |fields|, r));
      SeenInRun(fields, Start(slots), s, r);
    }
    forall r: nat | r < Tracked(fields)
      ensures r in seen <==> fields[RequiredEntry(fields, |fields|, r)].tag in tags
    {
      SeenInRun(fields, Start(slots), s, r);
    }
  }
}
