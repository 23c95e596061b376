/** The bitmap in which pb_decode_noinit records required fields, and the test it makes at the end. */
module RequiredFields {
  import opened Bits
  import opened Descriptor
  import opened Deserialize
  import opened FieldIterator

  const ALL_BITS: nat := 0xFFFF_FFFF

  predicate Words(words: seq<nat>) {
    |words| == 2 && words[0] < U32 && words[1] < U32
  }

  /** The required fields recorded in a bitmap. */
  function Recorded(words: seq<nat>): set<nat>
    requires Words(words)
  {
    set r: nat | r < 64 && Bit(words[r / 32], r % 32)
  }

  lemma NothingRecorded()
    ensures Recorded([0, 0]) == {}
  {
    forall r: nat | r < 64 ensures !Bit([0, 0][r / 32], r % 32) { ZeroBit(r % 32); }
  }

  /** `fields_seen[r >> 5] |= 1 << (r & 31)`. */
  method Record(words: array<nat>, r: nat)
    requires Words(words[..]) && r < 64
    modifies words
    ensures Words(words[..]) && Recorded(words[..]) == old(Recorded(words[..])) + {r}
  {
    RecordedOr(words[..], r);
    words[r / 32] := Or(words[r / 32], Shl(1, r % 32));
  }

  lemma RecordedOr(words: seq<nat>, r: nat)
    requires Words(words) && r < 64
    ensures var w := words[r / 32 := Or(words[r / 32], Shl(1, r % 32))];
            Words(w) && Recorded(w) == Recorded(words) + {r}
  {
    var w := words[r / 32 := Or(words[r / 32], Shl(1, r % 32))];
    OneBit(r % 32);
    OrU32(words[r / 32], Pow2(r % 32), 32);
    forall q: nat | q < 64 ensures Bit(w[q / 32], q % 32) == (Bit(words[q / 32], q % 32) || q == r) {
      if q / 32 == r / 32 {
        OrBit(words[r / 32], Pow2(r % 32), q % 32);
        Pow2Bit(r % 32, q % 32);
      }
    }
  }

  lemma OneBit(k: nat)
    requires k < 32
    ensures Pow2(k) < U32
  {
    var n := 32;
    ShlTable(1, n);
    ShlMore(1, k + 1, n);
  }

  // ---------------------------------------------------------------- the test

  /** `allbits >> (32 - n)`. */
  function LowMask(n: nat): nat
    requires 0 < n < 32
  {
    ALL_BITS / Pow2(32 - n)
  }

  lemma {:induction false} ShlDivides(x: nat, r: nat, k: nat)
    requires r < Pow2(k)
    ensures (Shl(x, k) + r) / Pow2(k) == x
  {
    if k > 0 {
      ShlDivides(x, r / 2, k - 1);
      HalveBoth(Shl(x, k - 1) + r / 2, r % 2, Pow2(k - 1));
    }
  }

  lemma HalveBoth(a: nat, bit: nat, p: nat)
    requires p > 0 && bit < 2
    ensures (2 * a + bit) / (2 * p) == a / p
  {
    var q, m := a / p, a % p;
    assert a == q * p + m;
    assert 2 * a + bit == q * (2 * p) + (2 * m + bit) && 2 * m + bit < 2 * p;
    DivUnique(2 * a + bit, 2 * p, q, 2 * m + bit);
  }

  lemma DivUnique(a: nat, p: nat, q: nat, m: nat)
    requires p > 0 && a == q * p + m && m < p
    ensures a / p == q
  {
    var d := a / p;
    assert a == d * p + a % p;
    MulLess(d, q, p);
    MulLess(q, d, p);
  }

  lemma {:induction false} MulLess(a: nat, b: nat, p: nat)
    ensures a < b ==> a * p + p <= b * p
    decreases b
  {
    if a + 1 < b { MulLess(a, b - 1, p); }
  }

  /** The mask is the word with exactly the `n` low bits set. */
  lemma LowMaskIsOnes(n: nat)
    requires 0 < n < 32
    ensures LowMask(n) == Pow2(n) - 1
  {
    var k := 32;
    ShlTable(1, k);
    ShlShl(1, n, k - n);
    var x := Pow2(n) - 1;
    ShlAdd(x, 1, k - n);
    ShlDivides(x, Pow2(k - n) - 1, k - n);
  }

  /** One word of the bitmap against a mask of `n` bits, when no higher bit can be set. */
  lemma MaskTest(w: nat, n: nat)
    requires w < U32 && 0 < n <= 32
    requires forall k: nat | n <= k < 32 :: !Bit(w, k)
    ensures w == (if n == 32 then ALL_BITS else LowMask(n)) <==> LowBits(w, n)
  {
    var m := 32;
    ShlTable(1, m);
    if n < 32 { LowMaskIsOnes(n); }
    BoundFromBits(w, n, m);
    if LowBits(w, n) { OnesFromBits(w, n); }
    if w == Pow2(n) - 1 {
      forall k: nat | k < n ensures Bit(w, k) { OnesBit(n, k); }
    }
  }

  predicate LowBits(w: nat, n: nat) {
    forall k: nat | k < n :: Bit(w, k)
  }

  /** The two comparison steps of the decoder on `count` tracked fields. */
  predicate TestPasses(words: seq<nat>, count: nat)
    requires Words(words) && count <= 64
  {
    && (forall i | 0 <= i < count / 32 :: words[i] == ALL_BITS)
    && (count % 32 != 0 ==> words[count / 32] == LowMask(count % 32))
  }

  /** The test is exact: it passes if and only if every tracked field was recorded. */
  lemma TestIsExact(words: seq<nat>, count: nat)
    requires Words(words) && count <= 64
    requires forall r | r in Recorded(words) :: r < count || count == 64
    ensures TestPasses(words, count) <==> forall r: nat | r < count :: r in Recorded(words)
  {
    forall i: nat | i < 2 && (i < count / 32 || (i == count / 32 && count % 32 != 0))
      ensures words[i] == (if i < count / 32 then ALL_BITS else LowMask(count % 32))
          <==> LowBits(words[i], if i < count / 32 then 32 else count % 32)
    {
      var n := if i < count / 32 then 32 else count % 32;
      forall k: nat | n <= k < 32 ensures !Bit(words[i], k) {
        assert (32 * i + k) / 32 == i && (32 * i + k) % 32 == k;
        assert 32 * i + k !in Recorded(words);
      }
      MaskTest(words[i], n);
    }
    WordByWord(words, count);
  }

  /** Asking for every field is asking for the low bits of each word. */
  lemma WordByWord(words: seq<nat>, count: nat)
    requires Words(words) && count <= 64
    ensures (forall r: nat | r < count :: r in Recorded(words))
        <==> forall i: nat | i < 2 && 32 * i < count :: LowBits(words[i], if i < count / 32 then 32 else count % 32)
  {
    if forall r: nat | r < count :: r in Recorded(words) {
      forall i: nat | i < 2 && 32 * i < count ensures LowBits(words[i], if i < count / 32 then 32 else count % 32) {
        forall k: nat | k < (if i < count / 32 then 32 else count % 32) ensures Bit(words[i], k) {
          assert (32 * i + k) / 32 == i && (32 * i + k) % 32 == k;
          assert 32 * i + k in Recorded(words);
        }
      }
    }
    if forall i: nat | i < 2 && 32 * i < count :: LowBits(words[i], if i < count / 32 then 32 else count % 32) {
      forall r: nat | r < count ensures r in Recorded(words) {
        assert LowBits(words[r / 32], if r / 32 < count / 32 then 32 else count % 32);
      }
    }
  }

  /**
   The end of pb_decode_noinit: walk on from wherever the iterator stands to the last entry, count the
   required entries there and compare the bitmap.
   */
  method CheckRequired(iter: FieldIter, words: array<nat>) returns (ok: bool)
    requires iter.Valid() && Words(words[..])
    requires forall i | 0 <= i < |iter.start| :: iter.start[i].tag != 0
    requires forall r | r in Recorded(words[..]) :: r < RequiredBefore(iter.start, |iter.start|) || iter.start == []
    modifies iter
    ensures ok == AllSeen(iter.start, Recorded(words[..]))
  {
    var count, lastType := iter.requiredFieldIndex, EntryAt(iter.start, iter.pos).htype;
    var more := iter.Next();
    while more
      invariant iter.Valid()
      invariant iter.start != [] ==> if more then 0 < iter.pos < |iter.start| else iter.pos == 0
      invariant iter.start == [] ==> !more && count == 0 && iter.pos == 0
      invariant !more && iter.start != [] ==> count == RequiredBefore(iter.start, |iter.start| - 1) && lastType == iter.start[|iter.start| - 1].htype
      decreases if more then |iter.start| - iter.pos else 0
    {
      count, lastType := iter.requiredFieldIndex, EntryAt(iter.start, iter.pos).htype;
      more := iter.Next();
    }
    if lastType == Required && EntryAt(iter.start, iter.pos).tag != 0 {
      count := count + 1;
    }
    assert count == RequiredBefore(iter.start, |iter.start|);
    if count > PB_MAX_REQUIRED_FIELDS {
      count := PB_MAX_REQUIRED_FIELDS;
    }
    if count > 0 { TestIsExact(words[..], count); }
    var i := 0;
    while i < count / 32
      invariant 0 <= i <= count / 32
      invariant forall k | 0 <= k < i :: words[k] == ALL_BITS
    {
      if words[i] != ALL_BITS { return false; }
      i := i + 1;
    }
    if count % 32 != 0 && words[count / 32] != LowMask(count % 32) {
      return false;
    }
    return true;
  }
}
