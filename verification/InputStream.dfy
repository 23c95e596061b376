/** pb_istream_t over a memory buffer, and the readers that do not need a descriptor. */
module InputStream {
  import opened Bits
  import opened Varints
  import opened Serialize
  import opened Deserialize

  class IStream {
    const buf: array<byte>
    var state: nat
    var bytesLeft: nat

    /** The window to be read lies inside the buffer. */
    ghost predicate Valid()
      reads this
    {
      state + bytesLeft <= buf.Length
    }

    /** The bytes of the window. */
    ghost function Left(): (s: bytes)
      requires Valid()
      reads this, buf
      ensures |s| == bytesLeft
    {
      buf[state..state + bytesLeft]
    }

    /** Where the window ends; reading moves its start only. */
    ghost function End(): nat
      reads this
    {
      state + bytesLeft
    }

    /**
     The stream has done what `p` says of the window it had: on success what is left is `p.rest` and the
     window's end `end` is where it was; on failure the window still does not reach beyond `end`.
     */
    ghost predicate Took<T>(ok: bool, p: Parsed<T>, end: nat)
      reads this, buf
    {
      && Valid() && End() <= end
      && ok == p.Ok?
      && (ok ==> Left() == p.rest && End() == end)
    }

    /** pb_istream_from_buffer. */
    constructor FromBuffer(buffer: array<byte>, bufsize: nat)
      requires bufsize <= buffer.Length
      ensures Valid() && buf == buffer && state == 0 && bytesLeft == bufsize && Left() == buffer[..bufsize]
    {
      buf, state, bytesLeft := buffer, 0, bufsize;
    }

    /** The struct copy `*substream = *stream`, with a new `bytes_left`. */
    constructor Substream(of: IStream, size: nat)
      requires of.Valid() && size <= of.bytesLeft
      ensures Valid() && buf == of.buf && state == of.state && bytesLeft == size && Left() == of.Left()[..size]
    {
      buf, state, bytesLeft := of.buf, of.state, size;
    }

    /** buf_read: moves the cursor, and copies unless the destination is NULL. */
    method BufRead(dest: array?<byte>, count: nat)
      requires Valid() && count <= bytesLeft
      requires dest != null ==> dest != buf && count <= dest.Length
      modifies this`state, dest
      ensures state == old(state) + count
      ensures dest != null ==> dest[..count] == old(Left())[..count] && dest[count..] == old(dest[count..])
    {
      var source := state;
      state := state + count;
      if dest != null {
        var i := 0;
        while i < count
          invariant 0 <= i <= count && state == source + count
          invariant dest[..i] == buf[source..source + i]
          invariant dest[i..] == old(dest[i..])
        {
          ghost var copied, rest := dest[..i], dest[i + 1..];
          dest[i] := buf[source + i];
          i := i + 1;
          assert dest[..i] == copied + [buf[source + i - 1]];
          assert dest[i..] == rest;
        }
      }
    }

    /** pb_read. */
    method Read(dest: array?<byte>, count: nat) returns (ok: bool)
      requires Valid()
      requires dest != null ==> dest != buf && count <= dest.Length
      modifies this, dest
      ensures Took(ok, Take(count, old(Left())), old(End()))
      ensures ok && dest != null ==> dest[..count] == Take(count, old(Left())).value && dest[count..] == old(dest[count..])
    {
      if count == 0 { return true; }
      if bytesLeft < count { return false; }
      BufRead(dest, count);
      bytesLeft := bytesLeft - count;
      return true;
    }

    /** pb_readbyte. */
    method ReadByte() returns (ok: bool, b: byte)
      requires Valid()
      modifies this
      ensures Valid() && End() == old(End()) && ok == (old(bytesLeft) > 0)
      ensures ok ==> old(Left()) == [b] + Left()
      ensures !ok ==> Left() == old(Left())
    {
      b := 0;
      if bytesLeft == 0 { return false, b; }
      b := buf[state];
      state := state + 1;
      bytesLeft := bytesLeft - 1;
      ok := true;
    }

    /** pb_decode_varint. */
    method DecodeVarint() returns (ok: bool, value: nat)
      requires Valid()
      modifies this
      ensures Took(ok, Dec64(old(Left())), old(End()))
      ensures ok ==> value == Dec64(old(Left())).value
    {
      var bitpos: nat, result: nat := 0, 0;
      value := 0;
      ghost var whole, end := Left(), End();
      while true
        invariant Valid() && End() == end && result < U64
        invariant Dec64(whole) == Dec64From(Left(), bitpos, result)
        decreases bytesLeft
      {
        if bitpos >= 64 { return false, value; }
        ghost var s := Left();
        var more, b := ReadByte();
        if !more { return false, value; }
        assert s[0] == b && s[1..] == Left();
        OrU64(result, Shl(b % 128, bitpos) % U64, 64);
        result := Or(result, Shl(b % 128, bitpos) % U64);
        bitpos := bitpos + 7;
        if b < 128 { return true, result; }
      }
    }

    /** pb_decode_varint32_eof. */
    method DecodeVarint32Eof() returns (ok: bool, value: nat, eof: bool)
      requires Valid()
      modifies this
      ensures Took(ok, Dec32(old(Left())), old(End()))
      ensures ok ==> value == Dec32(old(Left())).value
      ensures eof == (old(bytesLeft) == 0)
    {
      eof, value := false, 0;
      ghost var whole, end := Left(), End();
      var more, b := ReadByte();
      if !more { return false, value, bytesLeft == 0; }
      assert whole[0] == b && whole[1..] == Left();
      if b < 128 { return true, b, eof; }
      var bitpos: nat, result: nat := 7, b % 128;
      while true
        invariant Valid() && End() == end && result < U32
        invariant Dec32(whole) == Dec32From(Left(), bitpos, result)
        decreases bytesLeft
      {
        ghost var s := Left();
        more, b := ReadByte();
        if !more { return false, value, eof; }
        assert s[0] == b && s[1..] == Left();
        if bitpos >= 32 {
          var signExtension := if bitpos < 63 then 0xFF else 0x01;
          if b % 128 != 0 && (result < 0x8000_0000 || b != signExtension) { return false, value, eof; }
        } else {
          OrU32(result, Shl(b % 128, bitpos) % U32, 32);
          result := Or(result, Shl(b % 128, bitpos) % U32);
        }
        bitpos := (bitpos + 7) % 256;
        if b < 128 {
          if bitpos == 35 && b / 16 % 8 != 0 { return false, value, eof; }
          return true, result, eof;
        }
      }
    }

    /** pb_skip_varint. */
    method SkipVarintBytes() returns (ok: bool)
      requires Valid()
      modifies this
      ensures Took(ok, SkipVarint(old(Left())), old(End()))
    {
      ghost var whole, end := Left(), End();
      var cell := new byte[1];
      while true
        invariant Valid() && End() == end && fresh(cell) && cell.Length == 1
        invariant SkipVarint(whole) == SkipVarint(Left())
        decreases bytesLeft
      {
        ghost var s := Left();
        ok := Read(cell, 1);
        if !ok { return; }
        assert cell[..1] == [cell[0]] && s[..1] == [s[0]];
        if cell[0] < 128 { return; }
      }
    }

    /** pb_skip_string, which is also how a window announced by a length is passed over. */
    method SkipString() returns (ok: bool)
      requires Valid()
      modifies this
      ensures Took(ok, Window(old(Left())), old(End()))
    {
      var length, eof;
      ok, length, eof := DecodeVarint32Eof();
      if ok { ok := Read(null, length); }
    }

    /** pb_decode_tag; `eof` is also how the zero tag is reported. */
    method DecodeTag() returns (ok: bool, wireType: nat, tag: nat, eof: bool)
      requires Valid()
      modifies this
      ensures Valid() && End() <= old(End())
      ensures ok == (Dec32(old(Left())).Ok? && Dec32(old(Left())).value != 0)
      ensures Dec32(old(Left())).Ok? ==> Left() == Dec32(old(Left())).rest && End() == old(End())
      ensures ok ==> tag == Dec32(old(Left())).value / 8 && wireType == Dec32(old(Left())).value % 8
      ensures !ok ==> eof == (old(bytesLeft) == 0 || Dec32(old(Left())).Ok?)
    {
      wireType, tag := 0, 0;
      var key;
      ok, key, eof := DecodeVarint32Eof();
      if !ok { return; }
      if key == 0 { return false, wireType, tag, true; }
      return true, key % 8, key / 8, eof;
    }

    /** pb_skip_field. */
    method SkipField(wireType: nat) returns (ok: bool)
      requires Valid()
      modifies this
      ensures Took(ok, Skip(wireType, old(Left())), old(End()))
    {
      if wireType == WT_VARINT { ok := SkipVarintBytes(); }
      else if wireType == WT_64BIT { ok := Read(null, 8); }
      else if wireType == WT_STRING { ok := SkipString(); }
      else if wireType == WT_32BIT { ok := Read(null, 4); }
      else { ok := false; }
    }

    /**
     pb_make_string_substream: the parent gives the announced bytes away, so that its window now starts
     where it was but ends that much earlier, until the substream is closed.
     */
    method MakeSubstream() returns (ok: bool, sub: IStream)
      requires Valid()
      modifies this
      ensures Valid() && End() <= old(End())
      ensures ok == Window(old(Left())).Ok?
      ensures ok ==> fresh(sub) && sub.buf == buf && sub.Valid() && sub.Left() == Window(old(Left())).value
      ensures ok ==> sub.state == state && sub.bytesLeft + bytesLeft == |Dec32(old(Left())).rest|
      ensures ok ==> bytesLeft == |Window(old(Left())).rest| && state + sub.bytesLeft + bytesLeft == old(End())
    {
      var size, eof;
      ok, size, eof := DecodeVarint32Eof();
      sub := this;
      if !ok { return; }
      if bytesLeft < size { return false, sub; }
      sub := new IStream.Substream(this, size);
      bytesLeft := bytesLeft - size;
    }

    /** pb_close_string_substream: skips what the substream has left; the parent resumes behind it. */
    method CloseSubstream(sub: IStream) returns (ok: bool)
      requires Valid() && sub != this && sub.Valid() && sub.buf == buf && sub.End() + bytesLeft <= buf.Length
      modifies this, sub
      ensures ok && Valid() && state == old(sub.End()) && bytesLeft == old(bytesLeft)
    {
      ok := true;
      if sub.bytesLeft != 0 {
        ok := sub.Read(null, sub.bytesLeft);
      }
      state := sub.state;
    }
  }

  /** Opening and closing a substream takes the parent exactly behind the announced bytes. */
  lemma ClosedWindow(stream: IStream, s: bytes, end: nat)
    requires stream.Valid() && Window(s).Ok? && stream.End() == end && |s| <= end <= stream.buf.Length
    requires s == stream.buf[end - |s|..end] && stream.bytesLeft == |Window(s).rest|
    ensures stream.Left() == Window(s).rest
  {
    WindowIsSuffix(s);
  }

  /** The rest of a decoded window is a suffix of it. */
  lemma WindowIsSuffix(s: bytes)
    requires Window(s).Ok?
    ensures Window(s).rest == s[|s| - |Window(s).rest|..]
  {
    Dec32Suffix(s);
  }

  lemma Dec32Suffix(s: bytes)
    requires Dec32(s).Ok?
    ensures Dec32(s).rest == s[|s| - |Dec32(s).rest|..]
  {
    if s[0] >= 128 { Dec32FromSuffix(s[1..], 7, s[0] % 128); }
  }

  lemma {:induction false} Dec32FromSuffix(s: bytes, bitpos: nat, result: nat)
    requires result < U32 && Dec32From(s, bitpos, result).Ok?
    ensures Dec32From(s, bitpos, result).rest == s[|s| - |Dec32From(s, bitpos, result).rest|..]
    decreases |s|
  {
    if s[0] >= 128 {
      var h := Shl(s[0] % 128, bitpos) % U32;
      OrU32(result, h, 32);
      Dec32FromSuffix(s[1..], (bitpos + 7) % 256, if bitpos >= 32 then result else Or(result, h));
    }
  }
}
