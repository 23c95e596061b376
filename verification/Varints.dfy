/** Base 128 varints, zigzag and little-endian integers: the byte formats, with no stream behind them. */
module Varints {
  import opened Bits

  type bytes = seq<byte>

  /** Outcome of reading from the front of a byte window: a value and what is left of the window. */
  datatype Parsed<+T> = Fail | Ok(value: T, rest: bytes)

  // ---------------------------------------------------------------- encoders

  /** What pb_encode_varint writes. */
  function Enc(v: nat): (s: bytes)
    ensures |s| >= 1
  {
    if v < 128 then [v] else [128 + v % 128] + Enc(v / 128)
  }

  /** Two's complement image of a signed 64-bit value. */
  function AsU64(i: int): (v: nat)
    ensures v < U64
  {
    i % U64
  }

  /** The zigzag image of a signed 64-bit value, with the C operators written out: `~(v << 1)` or `v << 1`. */
  function ZigZag(i: int): (v: nat)
    ensures v < U64
  {
    if i < 0 then U64 - 1 - (AsU64(i) * 2) % U64 else (AsU64(i) * 2) % U64
  }

  /** `n` bytes of `v`, least significant first. */
  function LittleEndian(n: nat, v: nat): (s: bytes)
    ensures |s| == n
  {
    if n == 0 then [] else [v % 256] + LittleEndian(n - 1, v / 256)
  }

  // ---------------------------------------------------------------- decoders

  /** The loop of pb_decode_varint. */
  function Dec64From(s: bytes, bitpos: nat, result: nat): (p: Parsed<nat>)
    ensures p.Ok? ==> |p.rest| < |s| && p.value < U64
    requires result < U64
    decreases |s|
  {
    if bitpos >= 64 || s == [] then Fail
    else
      var r := Or(result, Shl(s[0] % 128, bitpos) % U64);
      assert r < U64 by { OrU64(result, Shl(s[0] % 128, bitpos) % U64, 64); }
      if s[0] < 128 then Ok(r, s[1..]) else Dec64From(s[1..], bitpos + 7, r)
  }

  function Dec64(s: bytes): Parsed<nat> {
    Dec64From(s, 0, 0)
  }

  /** The multibyte loop of pb_decode_varint32; `bitpos` is an 8-bit counter. */
  function Dec32From(s: bytes, bitpos: nat, result: nat): (p: Parsed<nat>)
    requires result < U32
    ensures p.Ok? ==> |p.rest| < |s| && p.value < U32
    decreases |s|
  {
    if s == [] then Fail
    else
      var low := s[0] % 128;
      var signExtension := if bitpos < 63 then 0xFF else 0x01;
      if bitpos >= 32 && low != 0 && (result < 0x8000_0000 || s[0] != signExtension) then Fail
      else
        var r := if bitpos >= 32 then result else Or(result, Shl(low, bitpos) % U32);
        assert r < U32 by { OrU32(result, Shl(low, bitpos) % U32, 32); }
        var next := (bitpos + 7) % 256;
        if s[0] >= 128 then Dec32From(s[1..], next, r)
        else if next == 35 && s[0] / 16 % 8 != 0 then Fail
        else Ok(r, s[1..])
  }

  /** pb_decode_varint32_eof; its `eof` output is `s == []`. */
  function Dec32(s: bytes): (p: Parsed<nat>)
    ensures p.Ok? ==> |p.rest| < |s| && p.value < U32
  {
    if s == [] then Fail
    else if s[0] < 128 then Ok(s[0], s[1..])
    else Dec32From(s[1..], 7, s[0] % 128)
  }

  /** pb_skip_varint: no limit on the number of bytes. */
  function SkipVarint(s: bytes): (p: Parsed<()>)
    ensures p.Ok? ==> |p.rest| < |s|
  {
    if s == [] then Fail
    else if s[0] < 128 then Ok((), s[1..])
    else SkipVarint(s[1..])
  }

  /** The signed value pb_decode_svarint makes of a 64-bit word: `~(v >> 1)` or `v >> 1`. */
  function UnZigZag(v: nat): (i: int)
    requires v < U64
  {
    if v % 2 == 1 then AsI64(U64 - 1 - v / 2) else AsI64(v / 2)
  }

  /** Reading a 64-bit (32-bit) word as two's complement. */
  function AsI64(v: nat): int
    requires v < U64
  {
    if v < 0x8000_0000_0000_0000 then v else v - U64
  }

  function AsI32(v: nat): int
    requires v < U32
  {
    if v < 0x8000_0000 then v else v - U32
  }

  function FromLittleEndian(s: bytes): (v: nat)
  {
    if s == [] then 0 else s[0] + 256 * FromLittleEndian(s[1..])
  }

  // ---------------------------------------------------------------- round trips

  lemma {:induction false} EncLength(v: nat, k: nat, p: nat)
    requires p == Pow2(7 * k) && v < 128 * p
    ensures |Enc(v)| <= k + 1
  {
    if v >= 128 {
      assert k > 0;
      Shl7(1, 7 * k - 7);
      EncLength(v / 128, k - 1, Pow2(7 * k - 7));
    }
  }

  /** A 64-bit word takes at most ten bytes. */
  lemma EncAtMostTen(v: nat)
    requires v < U64
    ensures |Enc(v)| <= 10
  {
    var k := 9;
    ShlTable(1, 7 * k);
    EncLength(v, k, Pow2(7 * k));
  }

  /** One turn of a decoder: seven more bits land above the ones already collected. */
  lemma Septet(v: nat, k: nat, result: nat)
    requires result < Pow2(k)
    ensures Or(result, Shl(v % 128, k)) == result + Shl(v % 128, k) < Pow2(k + 7)
    ensures Shl(v, k) == Shl(v % 128, k) + Shl(v / 128, k + 7)
  {
    hide Or, Shl;
    OrDisjoint(result, v % 128, k);
    Shl7(v / 128, k);
    ShlAdd(v % 128, 128 * (v / 128), k);
    ShlMonotone(v % 128, 127, k);
    ShlAdd(1, 127, k);
    Shl7(1, k);
  }

  /** Unfolding one turn of the 64-bit loop. */
  lemma Dec64Turn(b: byte, t: bytes, k: nat, result: nat)
    requires k < 64 && result < Pow2(k) && result + Shl(b % 128, k) < U64
    ensures Dec64From([b] + t, k, result)
         == if b < 128 then Ok(result + Shl(b % 128, k), t) else Dec64From(t, k + 7, result + Shl(b % 128, k))
  {
    hide Or, Shl;
    var s := [b] + t;
    assert s[0] == b && s[1..] == t;
    Septet(b, k, result);
  }

  lemma {:induction false} Dec64FromEnc(v: nat, k: nat, result: nat, rest: bytes)
    requires k < 64 && result < Pow2(k) && result + Shl(v, k) < U64
    ensures Dec64From(Enc(v) + rest, k, result) == Ok(result + Shl(v, k), rest)
    decreases v
  {
    hide Shl, Dec64From;
    Septet(v, k, result);
    EncFirst(v, rest);
    if v < 128 {
      Dec64Turn(v, rest, k, result);
    } else {
      TopSeptet(v, k);
      Dec64Turn(128 + v % 128, Enc(v / 128) + rest, k, result);
      Dec64FromEnc(v / 128, k + 7, result + Shl(v % 128, k), rest);
    }
  }

  lemma EncFirst(v: nat, rest: bytes)
    ensures Enc(v) + rest == if v < 128 then [v] + rest else [128 + v % 128] + (Enc(v / 128) + rest)
  {
  }

  /** Unfolding one step of the encoder. */
  lemma EncStep(v: nat)
    ensures Enc(v) == if v < 128 then [v] else [128 + v % 128] + Enc(v / 128)
  {
  }

  /** A value that fits below bit 64 has no septet left to place from bit 64 on. */
  lemma TopSeptet(v: nat, k: nat)
    requires v >= 128 && Shl(v, k) < U64
    ensures k + 7 < 64
  {
    if k + 7 >= 64 {
      ShlTable(1, 64);
      ShlMore(1, 64, k + 7);
      Shl7(1, k);
      ShlMonotone(128, v, k);
    }
  }

  /** pb_decode_varint inverts pb_encode_varint on every 64-bit word, whatever follows. */
  lemma Dec64Enc(v: nat, rest: bytes)
    requires v < U64
    ensures Dec64(Enc(v) + rest) == Ok(v, rest)
  {
    Dec64FromEnc(v, 0, 0, rest);
  }

  lemma ZigZagRoundTrip(i: int)
    requires -0x8000_0000_0000_0000 <= i < 0x8000_0000_0000_0000
    ensures UnZigZag(ZigZag(i)) == i
    ensures ZigZag(i) == if i < 0 then -2 * i - 1 else 2 * i
  {
  }

  lemma {:induction false} LittleEndianRoundTrip(n: nat, v: nat)
    requires v < Pow2(8 * n)
    ensures FromLittleEndian(LittleEndian(n, v)) == v
  {
    if n > 0 {
      Shl7(1, 8 * n - 8);
      LittleEndianRoundTrip(n - 1, v / 256);
      assert LittleEndian(n, v)[1..] == LittleEndian(n - 1, v / 256);
    }
  }

  // ---------------------------------------------------------------- the 32-bit decoder

  /**
   The words whose encoding pb_decode_varint32 accepts.  Beyond 32-bit words these should be the
   sign-extended negative ones, but bits 32 to 34 share the fifth byte with bits 28 to 31 and are not
   looked at, and each later septet may be all ones or all zeros.
   */
  predicate Accepted32(v: nat) {
    v < U32 || (v % U32 >= 0x8000_0000 && SignTail(v / 0x8_0000_0000, 35))
  }

  /** `v` sits at bit `k`: septets of all ones or all zeros, ended by bit 63 alone. */
  predicate SignTail(v: nat, k: nat) {
    if v < 128 then v == 1 && k == 63 else v % 128 in {0, 127} && SignTail(v / 128, k + 7)
  }

  /** The sign-extended negative 32-bit values are among them. */
  lemma SignExtendedAccepted(v: nat)
    requires U64 - 0x8000_0000 <= v < U64
    ensures Accepted32(v) && v % U32 == v - (U64 - U32)
  {
    assert v / 0x8_0000_0000 == 0x1fff_ffff;
    assert SignTail(0x1fff_ffff, 35);
  }

  /** From the sixth byte on nothing is collected; septets of the sign's own kind are let through. */
  lemma {:induction false} Dec32Tail(v: nat, k: nat, result: nat, rest: bytes)
    requires k in {35, 42, 49, 56, 63} && result < U32 && v > 0 && (k == 63 ==> v == 1)
    requires k == 35 ==> v < 0x2000_0000
    requires k == 42 ==> v < 0x40_0000
    requires k == 49 ==> v < 0x8000
    requires k == 56 ==> v < 0x100
    ensures Dec32From(Enc(v) + rest, k, result)
         == if result >= 0x8000_0000 && SignTail(v, k) then Ok(result, rest) else Fail
    decreases v
  {
    hide Shl, Or;
    var s := Enc(v) + rest;
    EncFirst(v, rest);
    if v < 128 {
      assert s[0] == v && s[1..] == rest;
    } else {
      assert s[0] == 128 + v % 128 && s[1..] == Enc(v / 128) + rest;
      Dec32Tail(v / 128, k + 7, result, rest);
    }
  }

  /** Only four of the seven bits placed at bit 28 fit in a 32-bit word. */
  lemma FifthSeptet(b: byte, k: nat, result: nat)
    requires k == 28 && result < 0x1000_0000
    ensures Or(result, Shl(b % 128, k) % U32) == result + 0x1000_0000 * (b % 16)
    ensures Shl(b % 128, k) == 0x1000_0000 * (b % 128) && Pow2(k) == 0x1000_0000
  {
    hide Or, Shl;
    ShlTable(1, k);
    ShlTable(b % 128, k);
    ShlTable(b % 16, k);
    OrDisjoint(result, b % 16, k);
    Word32(0x1000_0000 * (b % 16), b % 128 / 16);
    LowFour(b);
  }

  /** The low four bits of a septet, and the three above them. */
  lemma LowFour(b: byte)
    ensures b % 128 == b % 16 + 16 * (b % 128 / 16) && b % 128 % 16 == b % 16
  {
  }

  lemma Dec32FifthTurn(b: byte, t: bytes, k: nat, result: nat)
    requires k == 28 && result < 0x1000_0000
    ensures Dec32From([b] + t, k, result)
         == var r := result + 0x1000_0000 * (b % 16);
            if b >= 128 then Dec32From(t, k + 7, r) else if b >= 16 then Fail else Ok(r, t)
  {
    hide Or, Shl;
    var s := [b] + t;
    assert s[0] == b && s[1..] == t;
    FifthSeptet(b, k, result);
  }

  lemma FifthSplit(result: nat, v: nat)
    requires result < 0x1000_0000 && v < 0x10_0000_0000
    ensures var word := result + 0x1000_0000 * v;
            var r := result + 0x1000_0000 * (v % 16);
            word % U32 == r && (word < U32 <==> v < 16)
            && word / 0x8_0000_0000 == v / 128
  {
    Word32(result + 0x1000_0000 * (v % 16), v / 16);
    Bit35(result + 0x1000_0000 * (v % 128), v / 128);
    assert v == v % 16 + 16 * (v / 16);
    assert v == v % 128 + 128 * (v / 128);
  }

  lemma Word32(r: nat, q: nat)
    requires r < U32
    ensures (r + U32 * q) % U32 == r
  {
  }

  lemma Bit35(r: nat, q: nat)
    requires r < 0x8_0000_0000
    ensures (r + 0x8_0000_0000 * q) / 0x8_0000_0000 == q
  {
  }

  /** Bits 28 to 31, three bits that are dropped, and the tail. */
  lemma Dec32Fifth(v: nat, k: nat, result: nat, rest: bytes)
    requires k == 28 && result < 0x1000_0000 && v < 0x10_0000_0000
    ensures var word := result + 0x1000_0000 * v;
            Dec32From(Enc(v) + rest, k, result) == if Accepted32(word) then Ok(word % U32, rest) else Fail
  {
    hide Shl, Dec32From;
    FifthSplit(result, v);
    EncFirst(v, rest);
    var r := result + 0x1000_0000 * (v % 16);
    if v < 128 {
      Dec32FifthTurn(v, rest, k, result);
    } else {
      assert (128 + v % 128) % 16 == v % 16;
      Dec32FifthTurn(128 + v % 128, Enc(v / 128) + rest, k, result);
      Dec32Tail(v / 128, k + 7, r, rest);
    }
  }

  /** Unfolding one turn of the 32-bit loop below bit 28. */
  lemma Dec32Turn(b: byte, t: bytes, k: nat, result: nat)
    requires k in {7, 14, 21} && result < Pow2(k)
    ensures result + Shl(b % 128, k) < Pow2(k + 7) <= U32
    ensures Dec32From([b] + t, k, result)
         == if b < 128 then Ok(result + Shl(b % 128, k), t) else Dec32From(t, k + 7, result + Shl(b % 128, k))
  {
    hide Or, Shl;
    var s := [b] + t;
    assert s[0] == b && s[1..] == t;
    Septet(b, k, result);
    ShlTable(1, k + 7);
    assert Shl(b % 128, k) % U32 == Shl(b % 128, k);
    assert (k + 7) % 256 == k + 7;
  }

  lemma {:induction false} Dec32Head(v: nat, k: nat, result: nat, rest: bytes)
    requires k in {7, 14, 21, 28} && result < Pow2(k) <= U32 && result + Shl(v, k) < U64
    ensures Dec32From(Enc(v) + rest, k, result)
         == if Accepted32(result + Shl(v, k)) then Ok((result + Shl(v, k)) % U32, rest) else Fail
    decreases v
  {
    hide Or, Shl, Dec32From, Accepted32;
    if k == 28 {
      ShlTable(v, k);
      ShlTable(1, k);
      Dec32Fifth(v, k, result, rest);
    } else {
      Septet(v, k, result);
      EncFirst(v, rest);
      if v < 128 {
        Dec32Turn(v, rest, k, result);
        SmallAccepted(result + Shl(v, k));
      } else {
        Dec32Turn(128 + v % 128, Enc(v / 128) + rest, k, result);
        Dec32Head(v / 128, k + 7, result + Shl(v % 128, k), rest);
      }
    }
  }

  lemma SmallAccepted(v: nat)
    requires v < U32
    ensures Accepted32(v) && v % U32 == v
  {
  }

  /** Exactly which 64-bit words the 32-bit decoder takes back, and to what value. */
  lemma Dec32Enc(v: nat, rest: bytes)
    requires v < U64
    ensures Dec32(Enc(v) + rest) == if Accepted32(v) then Ok(v % U32, rest) else Fail
  {
    hide Or, Shl, Dec32From, Accepted32;
    var s := Enc(v) + rest;
    EncFirst(v, rest);
    if v < 128 {
      SmallAccepted(v);
      assert s[0] == v && s[1..] == rest;
    } else {
      assert s[0] == 128 + v % 128 && s[1..] == Enc(v / 128) + rest;
      assert s[0] % 128 == v % 128;
      var k := 7;
      Times128(1);
      Times128(v / 128);
      assert v % 128 + 128 * (v / 128) == v;
      Dec32Head(v / 128, k, v % 128, rest);
    }
  }

  /** A value the 32-bit decoder accepts although it is neither a 32-bit one nor the extension of a negative one. */
  lemma AcceptedBeyond32(rest: bytes)
    ensures var v := 0x1FFF_FFFF * 0x8_0000_0000 + 0x8000_0000;
            U32 <= v < U64 - 0x8000_0000 && Dec32(Enc(v) + rest) == Ok(0x8000_0000, rest)
  {
    hide Enc, Dec32;
    var v := 0x1FFF_FFFF * 0x8_0000_0000 + 0x8000_0000;
    assert SignTail(1, 63);
    assert SignTail(0xFF, 56);
    assert SignTail(0x7FFF, 49);
    assert SignTail(0x3F_FFFF, 42);
    assert SignTail(0x1FFF_FFFF, 35);
    Dec32Enc(v, rest);
  }

  /** In particular every 32-bit word comes back as it was. */
  lemma Dec32Word(v: nat, rest: bytes)
    requires v < U32
    ensures Dec32(Enc(v) + rest) == Ok(v, rest)
  {
    hide Enc, Dec32, Accepted32;
    Dec32Enc(v, rest);
    SmallAccepted(v);
  }

  // ---------------------------------------------------------------- the two decoders against each other

  /** Once 32 bits are collected, the 64-bit loop adds only multiples of 2^32. */
  lemma HighSeptet(b: byte, k: nat, r64: nat)
    requires k in {35, 42, 49, 56, 63} && r64 < Pow2(k)
    ensures Or(r64, Shl(b % 128, k) % U64) % U32 == r64 % U32
    ensures Or(r64, Shl(b % 128, k) % U64) < U64
    ensures k < 63 ==> Or(r64, Shl(b % 128, k) % U64) < Pow2(k + 7)
  {
    hide Or, Shl;
    var low := if k == 63 then b % 2 else b % 128;
    TruncatedSeptet(b, k);
    ShlTable(1, k);
    OrDisjoint(r64, low, k);
    if k < 63 {
      Septet(b, k, r64);
      ShlTable(1, k + 7);
    }
    HighMultiple(k, r64, low);
  }

  /** At bit 63 only the lowest bit of a septet is left. */
  lemma TruncatedSeptet(b: byte, k: nat)
    requires k in {35, 42, 49, 56, 63}
    ensures var low := if k == 63 then b % 2 else b % 128;
            Shl(b % 128, k) % U64 == Shl(low, k) && Shl(low, k) + Shl(1, k) <= U64
  {
    hide Shl;
    ShlTable(1, k);
    ShlTable(b % 128, k);
    ShlTable(b % 2, k);
  }

  lemma HighMultiple(k: nat, r64: nat, low: nat)
    requires k in {35, 42, 49, 56, 63}
    ensures (r64 + Shl(low, k)) % U32 == r64 % U32
  {
    hide Shl;
    var q := Shl(low, k - 32);
    var k' := 32;
    ShlShl(low, k - 32, k');
    ShlTable(q, k');
    Word32(r64 % U32, r64 / U32 + q);
    assert r64 == r64 % U32 + U32 * (r64 / U32);
  }

  /** Past bit 32 the two loops only have to agree on where the varint ends. */
  lemma {:induction false} SameEnd(s: bytes, k: nat, r64: nat, r32: nat)
    requires k in {35, 42, 49, 56, 63} && r64 < Pow2(k) && r64 < U64 && r32 == r64 % U32
    requires Dec64From(s, k, r64).Ok? && Dec32From(s, k, r32).Ok?
    ensures Dec64From(s, k, r64).rest == Dec32From(s, k, r32).rest
    ensures Dec32From(s, k, r32).value == Dec64From(s, k, r64).value % U32
    decreases |s|
  {
    hide Or, Shl;
    HighSeptet(s[0], k, r64);
    if s[0] >= 128 && k < 63 {
      SameEnd(s[1..], k + 7, Or(r64, Shl(s[0] % 128, k) % U64), r32);
    }
  }

  /** At bit 28 the 64-bit loop keeps three bits that the 32-bit one drops. */
  lemma AgreeFifth(b: byte, t: bytes, k: nat, r: nat)
    requires k == 28 && r < 0x1000_0000
    requires Dec64From([b] + t, k, r).Ok? && Dec32From([b] + t, k, r).Ok?
    ensures Dec64From([b] + t, k, r).rest == Dec32From([b] + t, k, r).rest
    ensures Dec32From([b] + t, k, r).value == Dec64From([b] + t, k, r).value % U32
  {
    hide Or, Shl, Dec32From, Dec64From;
    FifthSeptet(b, k, r);
    var r64, r32 := r + Shl(b % 128, k), r + 0x1000_0000 * (b % 16) as nat;
    FifthWords(b, r);
    Dec32FifthTurn(b, t, k, r);
    Dec64Turn(b, t, k, r);
    if b >= 128 {
      ShlTable(1, k + 7);
      SameEnd(t, k + 7, r64, r32);
    }
  }

  lemma FifthWords(b: byte, r: nat)
    requires r < 0x1000_0000
    ensures (r + 0x1000_0000 * (b % 128)) % U32 == r + 0x1000_0000 * (b % 16)
    ensures r + 0x1000_0000 * (b % 128) < 0x8_0000_0000
  {
    hide *;
    FifthSplit(r, b % 128);
    LowFour(b);
  }

  lemma {:induction false} AgreeFrom(s: bytes, k: nat, r: nat)
    requires k in {7, 14, 21, 28} && r < Pow2(k) <= U32
    requires Dec64From(s, k, r).Ok? && Dec32From(s, k, r).Ok?
    ensures Dec64From(s, k, r).rest == Dec32From(s, k, r).rest
    ensures Dec32From(s, k, r).value == Dec64From(s, k, r).value % U32
    decreases |s|
  {
    hide Or, Shl;
    var b, t := s[0], s[1..];
    assert s == [b] + t;
    if k < 28 {
      hide Dec32From, Dec64From;
      Dec32Turn(b, t, k, r);
      Dec64Turn(b, t, k, r);
      if b >= 128 {
        AgreeFrom(t, k + 7, r + Shl(b % 128, k));
      }
    } else {
      ShlTable(1, k);
      AgreeFifth(b, t, k, r);
    }
  }

  /** Wherever both decoders accept, they stop at the same byte and agree modulo 2^32. */
  lemma DecodersAgree(s: bytes)
    requires Dec64(s).Ok? && Dec32(s).Ok?
    ensures Dec64(s).rest == Dec32(s).rest
    ensures Dec32(s).value == Dec64(s).value % U32
  {
    assert s == [s[0]] + s[1..];
    Dec64Turn(s[0], s[1..], 0, 0);
    var k := 7;
    ShlTable(1, k);
    if s[0] >= 128 {
      AgreeFrom(s[1..], k, s[0] % 128);
    }
  }

  // ---------------------------------------------------------------- what follows does not matter

  lemma {:induction false} Dec64FromExtend(s: bytes, bitpos: nat, result: nat, y: bytes)
    requires result < U64 && Dec64From(s, bitpos, result).Ok?
    ensures Dec64From(s + y, bitpos, result)
         == Ok(Dec64From(s, bitpos, result).value, Dec64From(s, bitpos, result).rest + y)
    decreases |s|
  {
    var h := Shl(s[0] % 128, bitpos) % U64;
    OrU64(result, h, 64);
    assert (s + y)[0] == s[0] && (s + y)[1..] == s[1..] + y;
    if s[0] >= 128 {
      Dec64FromExtend(s[1..], bitpos + 7, Or(result, h), y);
    }
  }

  lemma Dec64Extend(s: bytes, y: bytes)
    requires Dec64(s).Ok?
    ensures Dec64(s + y) == Ok(Dec64(s).value, Dec64(s).rest + y)
  {
    Dec64FromExtend(s, 0, 0, y);
  }

  lemma {:induction false} Dec32FromExtend(s: bytes, bitpos: nat, result: nat, y: bytes)
    requires result < U32 && Dec32From(s, bitpos, result).Ok?
    ensures Dec32From(s + y, bitpos, result)
         == Ok(Dec32From(s, bitpos, result).value, Dec32From(s, bitpos, result).rest + y)
    decreases |s|
  {
    assert (s + y)[0] == s[0] && (s + y)[1..] == s[1..] + y;
    var h := Shl(s[0] % 128, bitpos) % U32;
    OrU32(result, h, 32);
    if s[0] >= 128 {
      var r := if bitpos >= 32 then result else Or(result, h);
      Dec32FromExtend(s[1..], (bitpos + 7) % 256, r, y);
    }
  }

  lemma Dec32Extend(s: bytes, y: bytes)
    requires Dec32(s).Ok?
    ensures Dec32(s + y) == Ok(Dec32(s).value, Dec32(s).rest + y)
  {
    assert (s + y)[0] == s[0] && (s + y)[1..] == s[1..] + y;
    if s[0] >= 128 {
      Dec32FromExtend(s[1..], 7, s[0] % 128, y);
    }
  }

  lemma {:induction false} SkipVarintExtend(s: bytes, y: bytes)
    requires SkipVarint(s).Ok?
    ensures SkipVarint(s + y) == Ok((), SkipVarint(s).rest + y)
  {
    assert (s + y)[0] == s[0] && (s + y)[1..] == s[1..] + y;
    if s[0] >= 128 {
      SkipVarintExtend(s[1..], y);
    }
  }
}
