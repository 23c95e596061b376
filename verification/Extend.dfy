/** The decoder only looks at the bytes it consumes. */
module Extend {
  // Whatever it does with a window it does with the same window followed by anything, leaving what follows in
  // place.

  import opened Descriptor
  import opened Varints
  import opened Serialize
  import opened Deserialize

  lemma TakeExtend(n: nat, s: bytes, y: bytes)
    requires Take(n, s).Ok?
    ensures Take(n, s + y) == Ok(Take(n, s).value, Take(n, s).rest + y)
  {
    assert (s + y)[..n] == s[..n];
    assert (s + y)[n..] == s[n..] + y;
  }

  lemma WindowExtend(s: bytes, y: bytes)
    requires Window(s).Ok?
    ensures Window(s + y) == Ok(Window(s).value, Window(s).rest + y)
  {
    Dec32Extend(s, y);
    TakeExtend(Dec32(s).value, Dec32(s).rest, y);
  }

  lemma SkipExtend(wireType: nat, s: bytes, y: bytes)
    requires Skip(wireType, s).Ok?
    ensures Skip(wireType, s + y) == Ok((), Skip(wireType, s).rest + y)
  {
    if wireType == WT_VARINT {
      SkipVarintExtend(s, y);
    } else if wireType == WT_STRING {
      WindowExtend(s, y);
    } else {
      TakeExtend(if wireType == WT_64BIT then 8 else 4, s, y);
    }
  }

  lemma ValueExtend(f: Field, was: Value, s: bytes, y: bytes)
    requires DecValue(f, was, s).Ok?
    ensures DecValue(f, was, s + y) == Ok(DecValue(f, was, s).value, DecValue(f, was, s).rest + y)
  {
    match f.ltype
    case Bool => Dec32Extend(s, y);
    case Varint => Dec64Extend(s, y);
    case UVarint => Dec64Extend(s, y);
    case SVarint => Dec64Extend(s, y);
    case Fixed32 => TakeExtend(4, s, y);
    case Fixed64 => TakeExtend(8, s, y);
    case FixedLengthBytes =>
      Dec32Extend(s, y);
      if Dec32(s).value != 0 {
        TakeExtend(Dec32(s).value, Dec32(s).rest, y);
      }
    case _ => WindowExtend(s, y);
  }

  lemma RepeatedExtend(f: Field, a: Filled, wireType: nat, s: bytes, y: bytes)
    requires DecRepeated(f, a, wireType, s).Ok?
    ensures DecRepeated(f, a, wireType, s + y) == Ok(DecRepeated(f, a, wireType, s).value, DecRepeated(f, a, wireType, s).rest + y)
  {
    if wireType == WT_STRING && f.Packable() {
      WindowExtend(s, y);
    } else {
      ValueExtend(f, a.items[a.count], s, y);
    }
  }

  lemma SlotExtend(f: Field, slot: Slot, fixedCount: nat, wireType: nat, s: bytes, y: bytes)
    requires DecSlot(f, slot, fixedCount, wireType, s).Ok?
    ensures DecSlot(f, slot, fixedCount, wireType, s + y)
         == Ok(DecSlot(f, slot, fixedCount, wireType, s).value, DecSlot(f, slot, fixedCount, wireType, s).rest + y)
  {
    match slot
    case Single(v) => ValueExtend(f, v, s, y);
    case Has(_, v) => ValueExtend(f, v, s, y);
    case Counted(count, items) => RepeatedExtend(f, Filled(items, count), wireType, s, y);
    case Array(items) => RepeatedExtend(f, Filled(items, fixedCount), wireType, s, y);
    case Union(which, v) => ValueExtend(f, if which == f.tag then v else FreshMember(f), s, y);
  }

  /** The same turn with more bytes behind the window. */
  function FollowedBy(t: Turn, y: bytes): Turn {
    match t
    case Stop(r) => Stop(r + y)
    case Next(st, r) => Next(st, r + y)
    case Error => Error
  }

  /** What becomes of a run that ended when `b` follows its window. */
  function Continued(fields: seq<Field>, o: Outcome, b: bytes): Outcome {
    match o
    case Done(st, rest, zero) => if zero then Done(st, rest + b, true) else Run(fields, st, b)
    case Failed => Failed
  }

  /** A turn that succeeds on a window succeeds in the same way on a longer one. */
  lemma StepExtend(fields: seq<Field>, st: State, s: bytes, y: bytes)
    requires !Step(fields, st, s).Error?
    ensures Step(fields, st, s + y) == FollowedBy(Step(fields, st, s), y)
  {
    Dec32Extend(s, y);
    var key, r := Dec32(s).value, Dec32(s).rest;
    if key != 0 {
      match FindTag(fields, key / 8) {
        case Some(i) =>
          var st2 := MarkSeen(fields, EnterFixed(fields, st, i).value, i);
          SlotExtend(fields[i], st2.slots[SlotOf(fields, i)], st2.fixedCount, key % 8, r, y);
        case None =>
          if fields == [] && key / 8 == 0 {
            Dec32Extend(r, y);
          } else {
            SkipExtend(key % 8, r, y);
          }
      }
    }
  }

  /** Decoding `a` to its end and then `b` is decoding `a + b`; a zero tag in `a` stops both in the same place. */
  lemma {:induction false} RunExtend(fields: seq<Field>, st: State, a: bytes, b: bytes)
    requires Run(fields, st, a).Done?
    ensures Run(fields, st, a + b) == Continued(fields, Run(fields, st, a), b)
    decreases |a|
  {
    if a == [] {
      assert a + b == b;
    } else {
      StepExtend(fields, st, a, b);
      match Step(fields, st, a)
      case Next(st', r) => RunExtend(fields, st', r, b);
      case _ =>
    }
  }

  /** The form used to run an encoding field by field. */
  lemma RunOne(fields: seq<Field>, st: State, x: bytes, y: bytes)
    requires x != [] && Step(fields, st, x).Next? && Step(fields, st, x).rest == []
    ensures Run(fields, st, x + y) == Run(fields, Step(fields, st, x).st, y)
  {
    RunExtend(fields, st, x, y);
  }
}
