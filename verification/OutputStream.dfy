/** pb_ostream_t: writing into a memory buffer, or only counting. */
module OutputStream {
  import opened Bits
  import opened Varints
  import opened Serialize

  /** `was` with `x` written over it from position `at` on. */
  function Splice(was: bytes, at: nat, x: bytes): (r: bytes)
    requires at + |x| <= |was|
    ensures |r| == |was|
  {
    was[..at] + x + was[at + |x|..]
  }

  /** Two writes in a row are one write of the concatenation. */
  lemma SpliceSplice(was: bytes, at: nat, x: bytes, y: bytes)
    requires at + |x| + |y| <= |was|
    ensures Splice(Splice(was, at, x), at + |x|, y) == Splice(was, at, x + y)
  {
    var one := Splice(was, at, x);
    assert one[..at + |x|] == was[..at] + x;
    assert one[at + |x| + |y|..] == was[at + |x + y|..];
  }

  lemma SpliceOne(was: bytes, at: nat, data: bytes, i: nat)
    requires i < |data| && at + |data| <= |was|
    ensures Splice(was, at, data[..i])[at + i := data[i]] == Splice(was, at, data[..i + 1])
  {
    var a, b := Splice(was, at, data[..i])[at + i := data[i]], Splice(was, at, data[..i + 1]);
    forall k | 0 <= k < |was| ensures a[k] == b[k] {
    }
  }

  class OStream {
    /** The callback is NULL: nothing is stored. */
    const sizing: bool
    const buf: array<byte>
    const maxSize: nat
    var state: nat
    var bytesWritten: nat

    /** What has been put out so far, counted only or written to the buffer. */
    ghost var out: bytes
    /** The buffer when the stream was made, and where its output starts. */
    ghost const initial: bytes
    ghost const base: nat

    /** The buffer is as it was, with the output written over it from `base` on; the rest still fits. */
    ghost predicate Valid()
      reads this, buf
    {
      && bytesWritten == |out| < U64 && maxSize < U64
      && (!sizing ==>
            && |out| <= maxSize && base + maxSize <= buf.Length && state == base + |out|
            && |initial| == buf.Length && buf[..] == Splice(initial, base, out))
    }

    ghost predicate Room(n: nat)
      reads this
    {
      sizing || |out| + n <= maxSize
    }

    /** Exactly `x` has been put out since the output was `before`. */
    ghost predicate Put(before: bytes, x: bytes)
      reads this, buf
    {
      Valid() && out == before + x
    }

    /** pb_ostream_from_buffer. */
    constructor FromBuffer(buffer: array<byte>, bufsize: nat)
      requires bufsize <= buffer.Length && bufsize < U64
      ensures Valid() && !sizing && buf == buffer && maxSize == bufsize && base == 0
      ensures initial == buffer[..] && out == []
    {
      sizing, buf, maxSize, state, bytesWritten := false, buffer, bufsize, 0, 0;
      initial, base, out := buffer[..], 0, [];
      new;
      assert Splice(initial, base, out) == initial;
    }

    /** PB_OSTREAM_SIZING. */
    constructor Sizing()
      ensures Valid() && sizing && out == [] && fresh(buf)
    {
      sizing, buf, maxSize, state, bytesWritten := true, new byte[0], 0, 0, 0;
      initial, base, out := [], 0, [];
    }

    /** The substream for a submessage of a known size. */
    constructor Substream(of: OStream, size: nat)
      requires of.Valid() && !of.sizing && of.Room(size)
      ensures Valid() && !sizing && buf == of.buf && maxSize == size && out == []
      ensures initial == of.buf[..] && base == of.state
    {
      sizing, buf, maxSize, state, bytesWritten := false, of.buf, size, of.state, 0;
      initial, base, out := of.buf[..], of.state, [];
      new;
      assert Splice(initial, base, out) == initial;
    }

    /** Taking over what a substream has written, as pb_encode_submessage does when it is done with it. */
    method Resume(sub: OStream)
      requires !sizing && sub != this && sub.Valid() && !sub.sizing && sub.buf == buf && sub.base == state
      requires bytesWritten == |out| && |out| + |sub.out| <= maxSize < U64 && base + maxSize <= buf.Length
      requires state == base + |out|
      requires |initial| == buf.Length && sub.initial == Splice(initial, base, out)
      modifies this
      ensures Put(old(out), sub.out)
    {
      SpliceSplice(initial, base, out, sub.out);
      bytesWritten := bytesWritten + sub.bytesWritten;
      state := sub.state;
      out := out + sub.out;
    }

    /** buf_write. */
    method BufWrite(data: bytes)
      requires state + |data| <= buf.Length
      modifies this`state, buf
      ensures state == old(state) + |data| && buf[..] == Splice(old(buf[..]), old(state), data)
    {
      var dest := state;
      state := state + |data|;
      var i := 0;
      ghost var was := buf[..];
      assert Splice(was, dest, []) == was;
      while i < |data|
        invariant 0 <= i <= |data| && state == dest + |data|
        invariant buf[..] == Splice(was, dest, data[..i])
      {
        ghost var before := buf[..];
        SpliceOne(was, dest, data, i);
        buf[dest + i] := data[i];
        assert buf[..] == before[dest + i := data[i]];
        i := i + 1;
      }
      assert data[..|data|] == data;
    }

    /** pb_write; a sizing stream does not look at the data. */
    method Write(data: bytes, count: nat, ghost x: bytes) returns (ok: bool)
      requires Valid() && count == |x| && (sizing || data == x) && |out| + count < U64
      modifies this, buf
      ensures Valid() && ok == old(Room(count)) && (if ok then Put(old(out), x) else out == old(out))
    {
      if count > 0 && !sizing {
        if (bytesWritten + count) % U64 < bytesWritten || (bytesWritten + count) % U64 > maxSize {
          return false;
        }
        SpliceSplice(initial, base, out, x);
        BufWrite(data);
      }
      bytesWritten := bytesWritten + count;
      out := out + x;
      return true;
    }

    /** pb_write of data at hand. */
    method WriteBytes(data: bytes) returns (ok: bool)
      requires Valid() && |out| + |data| < U64
      modifies this, buf
      ensures Valid() && ok == old(Room(|data|)) && (if ok then Put(old(out), data) else out == old(out))
    {
      ok := Write(data, |data|, data);
    }

    /** pb_encode_varint. */
    method EncodeVarint(value: nat) returns (ok: bool)
      requires Valid() && value < U64 && |out| + |Enc(value)| < U64
      modifies this, buf
      ensures Valid() && ok == old(Room(|Enc(value)|)) && (if ok then Put(old(out), Enc(value)) else out == old(out))
    {
      if value <= 0x7F {
        ok := WriteBytes([value]);
        return;
      }
      var data := VarintBytes(value);
      ok := WriteBytes(data);
    }

    /** Its loop over a local buffer of ten bytes. */
    static method VarintBytes(value: nat) returns (data: bytes)
      requires 0 < value < U64
      ensures data == Enc(value)
    {
      hide Enc;
      var buffer := new byte[10];
      var i: nat, v: nat := 0, value;
      EncAtMostTen(value);
      while v != 0
        invariant (v == 0 ==> i > 0) && i + (if v == 0 then 0 else |Enc(v)|) == |Enc(value)| <= 10 == buffer.Length
        invariant v > 0 ==> Enc(value) == buffer[..i] + Enc(v)
        invariant v == 0 ==> Enc(value) == buffer[..i - 1] + [buffer[i - 1] % 128]
        invariant v == 0 ==> buffer[i - 1] >= 128
        decreases v
      {
        ghost var done, w := buffer[..i], v;
        buffer[i] := v % 128 + 128;
        v := v / 128;
        i := i + 1;
        assert buffer[..i - 1] == done;
        assert buffer[..i] == done + [buffer[i - 1]];
        EncStep(w);
      }
      // Unset the top bit of the last byte.
      ghost var done := buffer[..i - 1];
      buffer[i - 1] := buffer[i - 1] % 128;
      assert buffer[..i] == done + [buffer[i - 1]];
      data := buffer[..i];
    }

    /** pb_encode_svarint. */
    method EncodeSvarint(value: int) returns (ok: bool)
      requires Valid() && -0x8000_0000_0000_0000 <= value < 0x8000_0000_0000_0000
      requires |out| + |Enc(ZigZag(value))| < U64
      modifies this, buf
      ensures Valid() && ok == old(Room(|Enc(ZigZag(value))|)) && (ok ==> Put(old(out), Enc(ZigZag(value))))
    {
      var zigzagged;
      if value < 0 {
        zigzagged := U64 - 1 - AsU64(value) * 2 % U64;
      } else {
        zigzagged := AsU64(value) * 2 % U64;
      }
      ok := EncodeVarint(zigzagged);
    }

    /** pb_encode_fixed32 and pb_encode_fixed64. */
    method EncodeFixed(n: nat, value: nat) returns (ok: bool)
      requires Valid() && n in {4, 8} && |out| + n < U64
      modifies this, buf
      ensures Valid() && ok == old(Room(n)) && (ok ==> Put(old(out), LittleEndian(n, value)))
    {
      ok := WriteBytes(LittleEndian(n, value));
    }

    /** pb_encode_tag. */
    method EncodeTag(wireType: nat, tag: nat) returns (ok: bool)
      requires Valid() && wireType < 8 && tag < 0x2000_0000 && |out| + |Key(tag, wireType)| < U64
      modifies this, buf
      ensures Valid() && ok == old(Room(|Key(tag, wireType)|)) && (ok ==> Put(old(out), Key(tag, wireType)))
    {
      ok := EncodeVarint(8 * tag + wireType);
    }

    /** pb_encode_string. */
    method EncodeString(s: bytes) returns (ok: bool)
      requires Valid() && |out| + |Prefixed(s)| < U64
      modifies this, buf
      ensures Valid() && ok == old(Room(|Prefixed(s)|)) && (ok ==> Put(old(out), Prefixed(s)))
    {
      ok := EncodeVarint(|s|);
      if ok { ok := WriteBytes(s); }
    }
  }
}
