/** The bytes of varints, words, keys and fields, with the numbers of the wire format written out. */
module WireFormat {
  // Sections "Base 128 Varints" and "Message Structure" of the Protocol Buffers encoding guide.

  import opened Bits
  import opened Descriptor
  import opened Varints
  import opened Serialize
  import opened Deserialize
  import opened RoundTrip
  import opened SameBytes
  import opened Packing

  // ---------------------------------------------------------------- varints

  /** Bytes up to the first one below 128. */
  predicate Group(g: bytes) {
    g != [] && g[|g| - 1] < 128 && forall k | 0 <= k < |g| - 1 :: g[k] >= 128
  }

  /** The low seven bits of each byte, least significant first. */
  function Septets(g: bytes): nat {
    if g == [] then 0 else g[0] % 128 + 128 * Septets(g[1..])
  }

  lemma {:induction false} GroupTail(g: bytes)
    requires Group(g) && g[0] >= 128
    ensures Group(g[1..])
  {
    var t := g[1..];
    assert forall k | 0 <= k < |t| :: t[k] == g[k + 1];
  }

  /** A varint is the shortest group that has the value. */
  lemma {:induction false} EncIsShortest(v: nat)
    ensures Group(Enc(v)) && Septets(Enc(v)) == v
    ensures |Enc(v)| > 1 ==> Enc(v)[|Enc(v)| - 1] != 0
    decreases v
  {
    EncStep(v);
    if v >= 128 {
      var t := Enc(v / 128);
      EncIsShortest(v / 128);
      assert Enc(v)[1..] == t;
      forall k | 0 <= k < |Enc(v)| - 1 ensures Enc(v)[k] >= 128 {
        if k > 0 { assert Enc(v)[k] == t[k - 1]; }
      }
    } else {
      assert Enc(v)[1..] == [];
      assert Septets([]) == 0;
    }
  }

  lemma SeptetsFirst(g: bytes, k: nat)
    requires g != []
    ensures Shl(Septets(g), k) == Shl(g[0] % 128, k) + Shl(Septets(g[1..]), k + 7)
  {
    hide Shl;
    var t := Septets(g[1..]);
    ShlAdd(g[0] % 128, 128 * t, k);
    Shl7(t, k);
  }

  /** Bits beyond the 64th are dropped. */
  lemma TopByte(b: byte, k: nat, result: nat)
    requires k == 63 && result < Pow2(k)
    ensures Or(result, Shl(b % 128, k) % U64) == (result + Shl(b % 128, k)) % U64
  {
    hide Or, Shl;
    var low := b % 128;
    ShlTable(low, k);
    ShlTable(low % 2, k);
    ShlTable(1, k);
    assert low == low % 2 + 2 * (low / 2);
    assert Shl(low, k) % U64 == Shl(low % 2, k);
    OrDisjoint(result, low % 2, k);
  }

  lemma Dec64Last(g: bytes, rest: bytes, k: nat, result: nat)
    requires Group(g) && k == 63 && result < Pow2(k) && result < U64
    ensures Dec64From(g + rest, k, result)
         == if |g| == 1 then Ok((result + Shl(Septets(g), k)) % U64, rest) else Fail
  {
    hide Or, Shl;
    var s := g + rest;
    TopByte(g[0], k, result);
    assert s[1..] == g[1..] + rest;
    if |g| == 1 {
      assert g[1..] == [] && [] + rest == rest;
      assert Septets(g) == g[0] % 128;
    }
  }

  lemma Dec64Next(g: bytes, rest: bytes, k: nat, result: nat)
    requires Group(g) && k in {0, 7, 14, 21, 28, 35, 42, 49, 56} && result < Pow2(k)
    ensures var r := result + Shl(g[0] % 128, k);
            && r < Pow2(k + 7) && r < U64
            && Dec64From(g + rest, k, result)
               == if |g| == 1 then Ok(r, rest) else Dec64From(g[1..] + rest, k + 7, r)
  {
    hide Shl, Dec64From;
    var t := g[1..] + rest;
    assert g + rest == [g[0]] + t;
    Septet(g[0], k, result);
    ShlTable(1, k + 7);
    Dec64Turn(g[0], t, k, result);
    if |g| == 1 { assert t == rest; }
  }

  lemma {:induction false} Dec64Group(g: bytes, rest: bytes, k: nat, result: nat)
    requires Group(g) && k in {0, 7, 14, 21, 28, 35, 42, 49, 56, 63} && result < Pow2(k) && result < U64
    ensures Dec64From(g + rest, k, result)
         == if k + 7 * |g| <= 70 then Ok((result + Shl(Septets(g), k)) % U64, rest) else Fail
    decreases |g|
  {
    hide Shl, Dec64From, Septets;
    if k == 63 {
      Dec64Last(g, rest, k, result);
    } else {
      Dec64Next(g, rest, k, result);
      SeptetsFirst(g, k);
      if |g| == 1 {
        assert g[1..] == [] && Septets([]) == 0 by { NoSeptets(k + 7); }
        NoSeptets(k + 7);
      } else {
        GroupTail(g);
        Dec64Group(g[1..], rest, k + 7, result + Shl(g[0] % 128, k));
      }
    }
  }

  lemma NoSeptets(k: nat)
    ensures Septets([]) == 0 && Shl(0, k) == 0
  {
  }

  /** Whatever the bytes: a group of up to ten bytes is read as its value modulo 2^64, longer ones are refused. */
  lemma Dec64OfGroup(g: bytes, rest: bytes)
    requires Group(g)
    ensures Dec64(g + rest) == if |g| <= 10 then Ok(Septets(g) % 0x1_0000_0000_0000_0000, rest) else Fail
  {
    Dec64Group(g, rest, 0, 0);
  }

  /** Input without a byte below 128 is no varint. */
  lemma {:induction false} Unended(s: bytes, k: nat, result: nat)
    requires (forall i | 0 <= i < |s| :: s[i] >= 128) && result < U64
    ensures Dec64From(s, k, result) == Fail && SkipVarint(s) == Fail
    decreases |s|
  {
    hide Or, Shl;
    if s != [] && k < 64 {
      var r := Or(result, Shl(s[0] % 128, k) % U64);
      OrU64(result, Shl(s[0] % 128, k) % U64, 64);
      Unended(s[1..], k + 7, r);
    } else if s != [] {
      Unended(s[1..], k, 0);
    }
  }

  /** Every input begins with a group, or has no end. */
  lemma {:induction false} FirstGroup(s: bytes) returns (g: bytes, rest: bytes)
    ensures s == g + rest
    ensures Group(g) || (rest == [] && forall i | 0 <= i < |g| :: g[i] >= 128)
    decreases |s|
  {
    if s == [] {
      g, rest := [], [];
    } else if s[0] < 128 {
      g, rest := [s[0]], s[1..];
    } else {
      g, rest := FirstGroup(s[1..]);
      g := [s[0]] + g;
    }
  }

  lemma {:induction false} SkipsGroup(g: bytes, rest: bytes)
    requires Group(g)
    ensures SkipVarint(g + rest) == Ok((), rest)
    decreases |g|
  {
    var s := g + rest;
    assert s[1..] == g[1..] + rest;
    if g[0] >= 128 {
      GroupTail(g);
      SkipsGroup(g[1..], rest);
    } else {
      assert |g| == 1 && g[1..] == [] && [] + rest == rest;
    }
  }

  /** From the sixth byte on only zeros, or the extension of a negative 32-bit number, get through. */
  predicate TailOk(g: bytes, k: nat, negative: bool) {
    forall i | 0 <= i < |g| :: g[i] % 128 == 0 || (negative && g[i] == if k + 7 * i < 63 then 0xFF else 0x01)
  }

  lemma {:induction false} Dec32TailGroup(g: bytes, rest: bytes, k: nat, result: nat)
    requires Group(g) && 35 <= k && k + 7 * |g| <= 256 && result < U32
    ensures Dec32From(g + rest, k, result)
         == if TailOk(g, k, result >= 0x8000_0000) then Ok(result, rest) else Fail
    decreases |g|
  {
    hide Shl, Or;
    var s := g + rest;
    var negative := result >= 0x8000_0000;
    assert s[0] == g[0] && s[1..] == g[1..] + rest;
    var ok := g[0] % 128 == 0 || (negative && g[0] == if k < 63 then 0xFF else 0x01);
    assert TailOk(g, k, negative) ==> ok;
    if |g| == 1 {
      assert g[1..] + rest == rest;
    } else {
      GroupTail(g);
      var t := g[1..];
      assert TailOk(g, k, negative) <==> ok && TailOk(t, k + 7, negative) by {
        assert forall i | 0 <= i < |t| :: t[i] == g[i + 1];
        assert forall i | 0 < i < |g| :: g[i] == t[i - 1];
      }
      if ok { Dec32TailGroup(t, rest, k + 7, result); }
    }
  }

  /** With `n` bytes before it: the fifth byte holds bits 28 to 31; its upper bits count only when it is the last. */
  predicate ToleratedFrom(g: bytes, n: nat)
    requires n <= 4
  {
    if |g| + n < 5 then true
    else if |g| + n == 5 then g[4 - n] < 16
    else TailOk(g[5 - n..], 35, g[4 - n] / 8 % 2 == 1)
  }

  predicate Tolerated(g: bytes) {
    ToleratedFrom(g, 0)
  }

  lemma ToleratedNext(g: bytes, n: nat)
    requires g != [] && n < 4
    ensures ToleratedFrom(g, n) <==> ToleratedFrom(g[1..], n + 1)
    ensures |g| == 1 ==> ToleratedFrom(g, n)
  {
    hide TailOk;
    if |g| + n > 5 { assert g[1..][4 - n..] == g[5 - n..]; }
  }

  lemma FifthValue(g: bytes, k: nat, result: nat)
    requires g != [] && k == 28 && result < 0x1000_0000
    ensures var low: nat := g[0] % 16; (result + Shl(Septets(g), k)) % U32 == result + 0x1000_0000 * low
  {
    hide Shl, Septets;
    var b, t := g[0], Septets(g[1..]);
    SeptetsFirst(g, k);
    ShlTable(b % 128, k);
    ShlTable(t, k + 7);
    LowFour(b);
    var low: nat, high: nat := b % 16, b % 128 / 16;
    Word32(result + 0x1000_0000 * low, high + 8 * t);
  }

  lemma TopBit(b: byte, result: nat)
    requires result < 0x1000_0000
    ensures result + 0x1000_0000 * (b % 16) >= 0x8000_0000 <==> b / 8 % 2 == 1
    ensures result + 0x1000_0000 * (b % 16) < U32
  {
    assert b / 8 % 2 == b % 16 / 8;
  }

  lemma Dec32FifthGroup(g: bytes, rest: bytes, k: nat, result: nat)
    requires Group(g) && |g| <= 6 && k == 28 && result < 0x1000_0000
    ensures Dec32From(g + rest, k, result)
         == if ToleratedFrom(g, 4) then Ok((result + Shl(Septets(g), k)) % U32, rest) else Fail
  {
    hide Dec32From, Shl, Septets, TailOk;
    var b, t := g[0], g[1..];
    assert g + rest == [b] + (t + rest);
    Dec32FifthTurn(b, t + rest, k, result);
    FifthValue(g, k, result);
    TopBit(b, result);
    if |g| == 1 {
      assert t + rest == rest;
    } else {
      GroupTail(g);
      var low: nat := b % 16;
      Dec32TailGroup(t, rest, k + 7, result + 0x1000_0000 * low);
    }
  }

  lemma {:induction false} Dec32Group(g: bytes, rest: bytes, k: nat, result: nat, n: nat)
    requires Group(g) && n in {1, 2, 3, 4} && k == 7 * n && |g| + n <= 10 && result < Pow2(k) && result < U32
    ensures Dec32From(g + rest, k, result)
         == if ToleratedFrom(g, n) then Ok((result + Shl(Septets(g), k)) % U32, rest) else Fail
    decreases |g|
  {
    hide Shl, Or, Dec32From, Septets, ToleratedFrom;
    ShlTable(1, k);
    if n == 4 {
      Dec32FifthGroup(g, rest, k, result);
    } else {
      var b, t := g[0], g[1..];
      assert g + rest == [b] + (t + rest);
      Dec32Turn(b, t + rest, k, result);
      SeptetsFirst(g, k);
      ToleratedNext(g, n);
      if |g| == 1 {
        NoSeptets(k + 7);
        assert t == [] && t + rest == rest;
      } else {
        GroupTail(g);
        Dec32Group(t, rest, k + 7, result + Shl(b % 128, k), n + 1);
      }
    }
  }

  /** Whatever the bytes: which groups of up to ten bytes the 32-bit decoder reads, and as what. */
  lemma Dec32OfGroup(g: bytes, rest: bytes)
    requires Group(g) && |g| <= 10
    ensures Dec32(g + rest) == if Tolerated(g) then Ok(Septets(g) % 0x1_0000_0000, rest) else Fail
  {
    hide Shl, Or, Dec32, Dec32From, Septets, ToleratedFrom;
    var t, k, low: nat := g[1..], 7, g[0] % 128;
    hide Group;
    Dec32First(g, rest);
    SeptetsAt(g);
    ToleratedNext(g, 0);
    if |g| == 1 {
      assert t == [];
      NoSeptets(k);
    } else {
      GroupTail(g);
      Times128(1);
      Times128(Septets(t));
      Dec32Group(t, rest, k, low, 1);
    }
  }

  lemma Dec32First(g: bytes, rest: bytes)
    requires Group(g)
    ensures Dec32(g + rest) == if |g| == 1 then Ok(g[0], rest) else Dec32From(g[1..] + rest, 7, g[0] % 128)
    ensures |g| == 1 <==> g[0] < 128
  {
    var s := g + rest;
    assert s[0] == g[0] && s[1..] == g[1..] + rest;
    if |g| == 1 { assert g[1..] + rest == rest; }
  }

  lemma SeptetsAt(g: bytes)
    requires g != []
    ensures Septets(g) == g[0] % 128 + 128 * Septets(g[1..])
  {
  }

  lemma {:induction false} Unended32(s: bytes, k: nat, result: nat)
    requires (forall i | 0 <= i < |s| :: s[i] >= 128) && result < U32
    ensures Dec32From(s, k, result) == Fail && Dec32(s) == Fail
    decreases |s|
  {
    hide Or, Shl;
    if s != [] {
      var r := Or(result, Shl(s[0] % 128, k) % U32);
      OrU32(result, Shl(s[0] % 128, k) % U32, 32);
      Unended32(s[1..], (k + 7) % 256, if k >= 32 then result else r);
      Unended32(s[1..], 7, s[0] % 128);
    }
  }

  // ---------------------------------------------------------------- words

  /** The value of bytes, the first one least significant. */
  function Bytewise(s: bytes): nat {
    if s == [] then 0 else s[0] + 0x100 * Bytewise(s[1..])
  }

  lemma LowByte(b: byte, t: nat)
    ensures (b + 0x100 * t) % 256 == b && (b + 0x100 * t) / 256 == t
  {
  }

  /** The least significant byte of a word comes first, in both directions. */
  lemma {:induction false} WordBytes(s: bytes)
    ensures LittleEndian(|s|, Bytewise(s)) == s && FromLittleEndian(s) == Bytewise(s)
  {
    if s != [] {
      var t := Bytewise(s[1..]);
      WordBytes(s[1..]);
      LowByte(s[0], t);
      var v, n := Bytewise(s), |s|;
      assert v == s[0] + 0x100 * t && v % 256 == s[0] && v / 256 == t;
      hide Bytewise;
      assert LittleEndian(n, v) == [s[0]] + s[1..];
    }
  }

  // ---------------------------------------------------------------- keys and fields

  /** The wire types of the encoding guide: VARINT, I64, LEN, SGROUP, EGROUP, I32. */
  function WireNumber(t: LType): nat {
    match t
    case Bool => 0
    case Varint => 0
    case UVarint => 0
    case SVarint => 0
    case Fixed64 => 1
    case Bytes => 2
    case String => 2
    case Submessage => 2
    case FixedLengthBytes => 2
    case Fixed32 => 5
  }

  /** Items one after the other, each behind the bytes `key`. */
  function Listed(key: bytes, f: Field, x: seq<Value>): bytes {
    if x == [] then [] else key + SerValue(f, x[0]) + Listed(key, f, x[1..])
  }

  lemma {:induction false} KeyedIsListed(f: Field, x: seq<Value>)
    ensures SerKeyedItems(f, x) == Listed(Enc(8 * f.tag + WireNumber(f.ltype)), f, x)
    decreases |x|
  {
    hide Enc, SerValue;
    if x != [] { KeyedIsListed(f, x[1..]); }
  }

  lemma {:induction false} ItemsAreListed(f: Field, x: seq<Value>)
    ensures SerItems(f, x) == Listed([], f, x)
    decreases |x|
  {
    hide SerValue;
    if x != [] {
      ItemsAreListed(f, x[1..]);
      assert [] + SerValue(f, x[0]) == SerValue(f, x[0]);
    }
  }

  /**
   What any field puts out: nothing for no items; for a packable array one key of wire type 2, the length of its items
   and these; otherwise each item behind a key of its type's number.
   */
  lemma FieldBytes(f: Field, s: Slot)
    requires ValidField(f) && SlotFits(f, s) && EncodableSlot(f, s)
    ensures var x := LiveValues(f, s);
            SerSlot(f, s)
            == if x == [] then []
               else if f.htype == Repeated && f.ltype in {Bool, Varint, UVarint, SVarint, Fixed32, Fixed64} then
                 Enc(8 * f.tag + 2) + (Enc(|Listed([], f, x)|) + Listed([], f, x))
               else Listed(Enc(8 * f.tag + WireNumber(f.ltype)), f, x)
  {
    hide Enc, SerValue, SerItems, SerKeyedItems, Listed, SerSlot, LiveValues;
    var x := LiveValues(f, s);
    SlotPut(f, s);
    KeyedIsListed(f, x);
    ItemsAreListed(f, x);
    if x == [] { NoneLeft(f); }
  }

  /** What each type's items are. */
  lemma ItemBytes(f: Field, v: Value)
    requires ShapedValue(f, v) && EncodableValue(f, v)
    ensures f.ltype == Bool ==> SerValue(f, v) == [if v.b then 1 else 0]
    ensures f.ltype == Varint ==> SerValue(f, v) == Enc(if v.i < 0 then v.i + 0x1_0000_0000_0000_0000 else v.i)
    ensures f.ltype == UVarint ==> SerValue(f, v) == Enc(v.i)
    ensures f.ltype == SVarint ==> SerValue(f, v) == Enc(if v.i < 0 then -2 * v.i - 1 else 2 * v.i)
    ensures f.ltype == Fixed32 ==> SerValue(f, v) == LittleEndian(4, v.i)
    ensures f.ltype == Fixed64 ==> SerValue(f, v) == LittleEndian(8, v.i)
    ensures f.ltype == Bytes ==> SerValue(f, v) == Enc(v.size) + v.buf[..v.size]
    ensures f.ltype == String ==> SerValue(f, v) == Enc(|CString(v.buf)|) + CString(v.buf)
    ensures f.ltype == FixedLengthBytes ==> SerValue(f, v) == Enc(f.dataSize) + v.buf
    ensures f.ltype == Submessage ==> SerValue(f, v) == Enc(|Ser(f.sub, v.slots)|) + Ser(f.sub, v.slots)
  {
    hide CString, LittleEndian, Ser, Encodable, Shaped, ZigZag, Enc;
    match f.ltype
    case Bool => EncStep(if v.b then 1 else 0);
    case Varint => assert AsU64(v.i) == if v.i < 0 then v.i + U64 else v.i;
    case UVarint => assert AsU64(v.i) == v.i;
    case SVarint => ZigZagRoundTrip(v.i);
    case _ =>
  }

  // ---------------------------------------------------------------- reading by wire type

  /** What is skipped behind a key, number by number. */
  lemma SkipNumbers(s: bytes)
    ensures Skip(0, s) == SkipVarint(s)
    ensures Skip(1, s) == if |s| < 8 then Fail else Ok((), s[8..])
    ensures Skip(2, s) == if Window(s).Ok? then Ok((), Window(s).rest) else Fail
    ensures Skip(5, s) == if |s| < 4 then Fail else Ok((), s[4..])
    ensures Skip(3, s) == Skip(4, s) == Skip(6, s) == Skip(7, s) == Fail
  {
    hide SkipVarint, Window;
  }

  /** A packable array is read as a block for wire type 2, and everything else as single items. */
  lemma BlockExactly(f: Field, a: Filled, wireType: nat, s: bytes)
    ensures DecRepeated(f, a, wireType, s)
         == if wireType == 2 && f.ltype in {Bool, Varint, UVarint, SVarint, Fixed32, Fixed64} then
              (if Window(s).Ok? && DecPacked(f, a, Window(s).value).Some?
               then Ok(DecPacked(f, a, Window(s).value).value, Window(s).rest) else Fail)
            else DecItem(f, a, s)
  {
    hide Window, DecPacked, DecItem;
  }

  /** Otherwise the wire type of a known field is not looked at. */
  lemma WireTypeIgnored(f: Field, slot: Slot, n: nat, wireType: nat, other: nat, s: bytes)
    requires f.htype != Repeated && !slot.Counted? && !slot.Array?
    ensures DecSlot(f, slot, n, wireType, s) == DecSlot(f, slot, n, other, s)
  {
    hide DecValue;
  }
}
