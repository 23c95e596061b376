/** Length-delimited and null-terminated messages in a longer stream. */
module Framing {
  import opened Bits
  import opened Descriptor
  import opened Varints
  import opened Serialize
  import opened Deserialize
  import opened Equivalence
  import opened Freshness
  import opened RoundTrip

  /** pb_decode_delimited. */
  function DecodeDelimited(fields: seq<Field>, dest: seq<Slot>, s: bytes): Parsed<seq<Slot>> {
    match Window(s)
    case Fail => Fail
    case Ok(w, r) =>
      match Decode(fields, dest, w)
      case Fail => Fail
      case Ok(slots, _) => Ok(slots, r)
  }

  /** The message decoded stands for the one encoded. */
  predicate Recovers(fields: seq<Field>, msg: seq<Slot>, p: Parsed<seq<Slot>>, tail: bytes) {
    p.Ok? && p.rest == tail && Shaped(fields, p.value) && Same(fields, msg, p.value)
  }

  /** A delimited message is recovered and the bytes behind it are left alone. */
  lemma DelimitedRoundTrip(fields: seq<Field>, msg: seq<Slot>, dest: seq<Slot>, tail: bytes)
    requires WellFormed(fields, msg) && Shaped(fields, dest) && |Ser(fields, msg)| < U32
    ensures Recovers(fields, msg, DecodeDelimited(fields, dest, Prefixed(Ser(fields, msg)) + tail), tail)
  {
    WindowOfPrefixed(Ser(fields, msg), tail);
    DecodeInvertsEncode(fields, msg, dest);
  }

  /** Whatever the payload, a delimited message is what decoding it alone gives, and nothing behind it is read. */
  lemma DelimitedExactly(fields: seq<Field>, dest: seq<Slot>, w: bytes, tail: bytes)
    requires |w| < U32
    ensures var p := Decode(fields, dest, w);
            DecodeDelimited(fields, dest, Enc(|w|) + w + tail) == if p.Ok? then Ok(p.value, tail) else Fail
  {
    hide Decode, Enc;
    WindowOfPrefixed(w, tail);
  }

  /** So is a message ended by a zero byte; pb_decode itself is the decoder for it. */
  lemma NullTerminatedRoundTrip(fields: seq<Field>, msg: seq<Slot>, dest: seq<Slot>, tail: bytes)
    requires WellFormed(fields, msg) && Shaped(fields, dest)
    ensures Recovers(fields, msg, Decode(fields, dest, Ser(fields, msg) + [0] + tail), tail)
  {
    DefaultsAreFresh(fields, dest);
    var start := Defaults(fields, dest);
    AgreesAtStart(fields, msg, start);
    var y := [0] + tail;
    var st := RunRoundTrip(fields, msg, Start(start), 0, y);
    assert Ser(fields, msg) + [0] + tail == Ser(fields, msg) + y;
    assert y[1..] == tail;
    AgreesAtEnd(fields, msg, st.slots);
  }

  datatype Frame = Delimited | NullTerminated

  /** One frame of either kind; pb_decode_nullterminated is pb_decode. */
  function DecodeFrame(kind: Frame, fields: seq<Field>, dest: seq<Slot>, s: bytes): Parsed<seq<Slot>> {
    match kind
    case Delimited => DecodeDelimited(fields, dest, s)
    case NullTerminated => Decode(fields, dest, s)
  }

  function Framed(kind: Frame, s: bytes): bytes {
    match kind
    case Delimited => Prefixed(s)
    case NullTerminated => s + [0]
  }

  /** `n` frames one after the other, each into a struct of its own. */
  function DecodeFrames(kind: Frame, fields: seq<Field>, dest: seq<Slot>, n: nat, s: bytes): Parsed<seq<seq<Slot>>> {
    if n == 0 then Ok([], s)
    else
      match DecodeFrame(kind, fields, dest, s)
      case Fail => Fail
      case Ok(m, r) =>
        match DecodeFrames(kind, fields, dest, n - 1, r)
        case Fail => Fail
        case Ok(ms, r') => Ok([m] + ms, r')
  }

  function Frames(kind: Frame, fields: seq<Field>, msgs: seq<seq<Slot>>): bytes {
    if msgs == [] then [] else Framed(kind, Ser(fields, msgs[0])) + Frames(kind, fields, msgs[1..])
  }

  lemma FrameRoundTrip(kind: Frame, fields: seq<Field>, msg: seq<Slot>, dest: seq<Slot>, tail: bytes)
    requires WellFormed(fields, msg) && Shaped(fields, dest) && (kind.Delimited? ==> |Ser(fields, msg)| < U32)
    ensures Recovers(fields, msg, DecodeFrame(kind, fields, dest, Framed(kind, Ser(fields, msg)) + tail), tail)
  {
    hide Decode, DecodeDelimited, WellFormed, Shaped, Ser;
    match kind
    case Delimited => DelimitedRoundTrip(fields, msg, dest, tail);
    case NullTerminated => NullTerminatedRoundTrip(fields, msg, dest, tail);
  }

  /** Concatenated frames of either kind decode one by one to the list that was encoded. */
  lemma {:induction false} FramesRoundTrip(kind: Frame, fields: seq<Field>, msgs: seq<seq<Slot>>, dest: seq<Slot>,
                                           tail: bytes)
    requires forall k | 0 <= k < |msgs| ::
      WellFormed(fields, msgs[k]) && (kind.Delimited? ==> |Ser(fields, msgs[k])| < U32)
    requires Shaped(fields, dest)
    ensures var p := DecodeFrames(kind, fields, dest, |msgs|, Frames(kind, fields, msgs) + tail);
            p.Ok? && p.rest == tail && |p.value| == |msgs|
            && forall k | 0 <= k < |msgs| :: Same(fields, msgs[k], p.value[k])
    decreases |msgs|
  {
    hide Decode, DecodeFrame, Framed, WellFormed, Shaped, Ser, Same;
    if msgs == [] {
      assert Frames(kind, fields, msgs) + tail == tail;
    } else {
      var first, more := Framed(kind, Ser(fields, msgs[0])), Frames(kind, fields, msgs[1..]) + tail;
      assert Frames(kind, fields, msgs) + tail == first + more;
      FrameRoundTrip(kind, fields, msgs[0], dest, more);
      FramesRoundTrip(kind, fields, msgs[1..], dest, tail);
      FirstFrame(kind, fields, msgs, dest, |msgs|, first + more);
    }
  }

  lemma FirstFrame(kind: Frame, fields: seq<Field>, msgs: seq<seq<Slot>>, dest: seq<Slot>, n: nat, s: bytes)
    requires n == |msgs| > 0 && DecodeFrame(kind, fields, dest, s).Ok?
    requires var p := DecodeFrame(kind, fields, dest, s);
             var q := DecodeFrames(kind, fields, dest, n - 1, p.rest);
             Same(fields, msgs[0], p.value) && q.Ok? && |q.value| == n - 1
             && forall k | 0 <= k < n - 1 :: Same(fields, msgs[1..][k], q.value[k])
    ensures var p := DecodeFrame(kind, fields, dest, s);
            var q := DecodeFrames(kind, fields, dest, n, s);
            q.Ok? && |q.value| == n && q.rest == DecodeFrames(kind, fields, dest, n - 1, p.rest).rest
            && forall k | 0 <= k < n :: Same(fields, msgs[k], q.value[k])
  {
    hide DecodeFrame, Same;
    var q := DecodeFrames(kind, fields, dest, n, s);
    var rest := DecodeFrames(kind, fields, dest, n - 1, DecodeFrame(kind, fields, dest, s).rest).value;
    forall k | 0 <= k < n ensures Same(fields, msgs[k], q.value[k]) {
      if k > 0 {
        assert msgs[k] == msgs[1..][k - 1];
        assert q.value[k] == rest[k - 1];
      }
    }
  }
}
