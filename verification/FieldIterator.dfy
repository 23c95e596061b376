/** pb_field_iter_t: the wrapping cursor over a descriptor, with running pointers into the struct. */
module FieldIterator {
  import opened Descriptor
  import opened Options
  import opened Deserialize

  /** PB_LAST_FIELD: all zeros, so it reads as a required bool with tag 0. */
  const TERMINATOR := Field(0, Bool, Required, 0, 0, 0, 0, [], None)

  /** The entry at position `i`; an empty descriptor has only the terminator. */
  function EntryAt(fields: seq<Field>, i: nat): Field {
    if i < |fields| then fields[i] else TERMINATOR
  }

  // ---------------------------------------------------------------- the struct layout, from scratch

  /** Bytes an entry takes up in the struct. */
  function Footprint(f: Field): nat {
    if f.htype == Repeated then f.dataSize * f.arraySize else f.dataSize
  }

  /** The entry at `i` lies in the same union as the one before it. */
  predicate ContinuesUnion(fields: seq<Field>, i: nat)
    requires i < |fields|
  {
    i > 0 && fields[i].InUnion() && fields[i - 1].htype == Oneof
  }

  /** Address of the data of entry `i` in a struct at `base`. */
  function DataAt(fields: seq<Field>, base: int, i: nat): int {
    if i == 0 then base + EntryAt(fields, 0).dataOffset
    else if i >= |fields| then 0
    else if ContinuesUnion(fields, i) then DataAt(fields, base, i - 1)
    else DataAt(fields, base, i - 1) + Footprint(fields[i - 1]) + fields[i].dataOffset
  }

  /** Address of its count, `has_` or `which_` word. */
  function SizeAt(fields: seq<Field>, base: int, i: nat): int {
    if i == 0 then DataAt(fields, base, 0) + EntryAt(fields, 0).sizeOffset
    else if i >= |fields| then 0
    else if ContinuesUnion(fields, i) then SizeAt(fields, base, i - 1)
    else DataAt(fields, base, i) + fields[i].sizeOffset
  }

  /** All members of a union have the data and the `which_` word of its first member. */
  lemma {:induction false} UnionShares(fields: seq<Field>, base: int, i: nat)
    requires i < |fields|
    ensures DataAt(fields, base, i) == DataAt(fields, base, SlotOf(fields, i))
    ensures SizeAt(fields, base, i) == SizeAt(fields, base, SlotOf(fields, i))
  {
    if ContinuesUnion(fields, i) { UnionShares(fields, base, i - 1); }
  }

  /** Outside unions, `pSize == pData` exactly for entries without a size word: the decoder's fixed-count test. */
  lemma OwnSizeWord(fields: seq<Field>, base: int, i: nat)
    requires i < |fields| && SlotOf(fields, i) == i
    ensures SizeAt(fields, base, i) - DataAt(fields, base, i) == fields[i].sizeOffset
  {
  }

  /**
   The descriptor of a struct whose members are at the offsets `at` and whose counts, `has_` and `which_` words are at
   `sizeAt`: offsets are told from the end of the member before, and members of a union are marked.
   */
  predicate Describes(fields: seq<Field>, at: seq<int>, sizeAt: seq<int>) {
    && |at| == |sizeAt| == |fields|
    && forall i | 0 <= i < |fields| :: DescribesEntry(fields, at, sizeAt, i)
  }

  predicate DescribesEntry(fields: seq<Field>, at: seq<int>, sizeAt: seq<int>, i: nat)
    requires i < |fields| == |at| == |sizeAt|
  {
    var f := fields[i];
    if i > 0 && f.htype == Oneof && fields[i - 1].htype == Oneof && f.dataOffset == 0xFFFF_FFFF then
      at[i] == at[i - 1] && sizeAt[i] == sizeAt[i - 1]
    else
      && f.sizeOffset == sizeAt[i] - at[i]
      && if i == 0 then f.dataOffset == at[0]
         else
           var before := fields[i - 1];
           var length := if before.htype == Repeated then before.dataSize * before.arraySize else before.dataSize;
           f.dataOffset == at[i] - (at[i - 1] + length)
  }

  /** Walking over the descriptor of a struct finds its members. */
  lemma {:induction false} LayoutFound(fields: seq<Field>, at: seq<int>, sizeAt: seq<int>, base: int, i: nat)
    requires Describes(fields, at, sizeAt) && i < |fields|
    ensures DataAt(fields, base, i) == base + at[i] && SizeAt(fields, base, i) == base + sizeAt[i]
  {
    assert DescribesEntry(fields, at, sizeAt, i);
    if i > 0 { LayoutFound(fields, at, sizeAt, base, i - 1); }
  }

  /** The entry behind a union starts behind all of member `i`, however long the last member is. */
  predicate RoomBehindUnion(fields: seq<Field>, i: nat)
    requires i < |fields|
  {
    forall k | i < k < |fields| && SlotOf(fields, k - 1) == SlotOf(fields, i) && !ContinuesUnion(fields, k) ::
      Footprint(fields[i]) <= Footprint(fields[k - 1]) + fields[k].dataOffset
  }

  lemma {:induction false} DataGrows(fields: seq<Field>, base: int, i: nat, j: nat)
    requires i <= j < |fields|
    ensures DataAt(fields, base, i) <= DataAt(fields, base, j)
    decreases j
  {
    if i < j { DataGrows(fields, base, i, j - 1); }
  }

  lemma BehindPrevious(fields: seq<Field>, base: int, k: nat)
    requires 0 < k < |fields| && !ContinuesUnion(fields, k)
    ensures DataAt(fields, base, k) == DataAt(fields, base, k - 1) + Footprint(fields[k - 1]) + fields[k].dataOffset
  {
    hide Footprint;
  }

  /** The first entry behind the slot of entry `i`. */
  lemma {:induction false} SlotEnds(fields: seq<Field>, i: nat, k: nat, j: nat) returns (end: nat)
    requires i < k <= j < |fields| && SlotOf(fields, k - 1) == SlotOf(fields, i) != SlotOf(fields, j)
    ensures k <= end <= j && SlotOf(fields, end - 1) == SlotOf(fields, i) && !ContinuesUnion(fields, end)
    ensures k == i + 1 && fields[i].htype != Oneof ==> end == k
    decreases j - k
  {
    if ContinuesUnion(fields, k) {
      end := SlotEnds(fields, i, k + 1, j);
    } else {
      end := k;
    }
  }

  /** Distinct slots do not overlap, in descriptor order, whatever lies between them. */
  lemma Ordered(fields: seq<Field>, base: int, i: nat, j: nat)
    requires i < j < |fields| && SlotOf(fields, i) != SlotOf(fields, j)
    requires fields[i].htype == Oneof ==> RoomBehindUnion(fields, i)
    ensures DataAt(fields, base, i) + Footprint(fields[i]) <= DataAt(fields, base, j)
  {
    hide DataAt, SizeAt, Footprint, SlotOf, ContinuesUnion;
    var end := SlotEnds(fields, i, i + 1, j);
    UnionShares(fields, base, i);
    UnionShares(fields, base, end - 1);
    BehindPrevious(fields, base, end);
    DataGrows(fields, base, end, j);
  }

  /** sizeof(pb_size_t) under PB_FIELD_32BIT. */
  const SIZE_WORD: nat := 4

  /**
   Setting to defaults stores a zero count at the count word of every repeated entry, which for a fixed-count array
   is at its items: the store stays inside them exactly when they take up as much, and otherwise reaches no later
   entry exactly when there is padding enough behind them.
   */
  lemma ZeroCountStore(fields: seq<Field>, base: int, i: nat)
    requires i < |fields| && fields[i].FixedCount()
    ensures var start := SizeAt(fields, base, i);
            && start == DataAt(fields, base, i)
            && (start + SIZE_WORD <= DataAt(fields, base, i) + Footprint(fields[i])
                <==> fields[i].dataSize * fields[i].arraySize >= SIZE_WORD)
            && ((forall j | i < j < |fields| :: start + SIZE_WORD <= DataAt(fields, base, j))
                <==> (i + 1 < |fields| ==> Footprint(fields[i]) + fields[i + 1].dataOffset >= SIZE_WORD))
  {
    OwnSizeWord(fields, base, i);
    if i + 1 < |fields| {
      BehindPrevious(fields, base, i + 1);
      forall j | i < j < |fields| ensures DataAt(fields, base, i + 1) <= DataAt(fields, base, j) {
        DataGrows(fields, base, i + 1, j);
      }
    }
  }

  // ---------------------------------------------------------------- the iterator

  class FieldIter {
    const start: seq<Field>
    const dest: int
    var pos: nat
    var requiredFieldIndex: nat
    var pData: int
    var pSize: int

    /** The running values are those a walk from the first entry would compute. */
    ghost predicate Valid()
      reads this
    {
      && (start == [] ==> pos == 0) && (start != [] ==> pos < |start|)
      && requiredFieldIndex == RequiredBefore(start, pos)
      && pData == DataAt(start, dest, pos)
      && pSize == SizeAt(start, dest, pos)
    }

    constructor (fields: seq<Field>, destStruct: int)
      ensures Valid() && start == fields && dest == destStruct && pos == 0
    {
      start, dest, pos, requiredFieldIndex := fields, destStruct, 0, 0;
      pData := destStruct + EntryAt(fields, 0).dataOffset;
      pSize := destStruct + EntryAt(fields, 0).dataOffset + EntryAt(fields, 0).sizeOffset;
    }

    /** pb_field_iter_begin on an iterator in use; false for an empty descriptor. */
    method Begin() returns (nonEmpty: bool)
      modifies this
      ensures Valid() && pos == 0 && nonEmpty == (start != [])
    {
      pos, requiredFieldIndex := 0, 0;
      pData := dest + EntryAt(start, 0).dataOffset;
      pSize := pData + EntryAt(start, 0).sizeOffset;
      nonEmpty := |start| > 0;
    }

    /** pb_field_iter_next: false when the walk wraps round to the first entry. */
    method Next() returns (more: bool)
      requires Valid()
      modifies this
      ensures Valid()
      ensures more == (old(pos) + 1 < |start|)
      ensures pos == if more then old(pos) + 1 else 0
    {
      if |start| == 0 { return false; }
      var prev := start[pos];
      pos := pos + 1;
      if pos == |start| {
        var _ := Begin();
        return false;
      }
      var cur := start[pos];
      var prevSize := prev.dataSize;
      if prev.htype == Oneof && cur.htype == Oneof && cur.dataOffset == PB_SIZE_MAX {
        return true;
      } else if prev.htype == Repeated {
        prevSize := prevSize * prev.arraySize;
      }
      if prev.htype == Required {
        requiredFieldIndex := requiredFieldIndex + 1;
      }
      pData := pData + prevSize + cur.dataOffset;
      pSize := pData + cur.sizeOffset;
      return true;
    }

    /**
     pb_field_iter_find: goes round at most once, from wherever it is; stops on an entry with the tag
     if there is one and comes back to where it was if there is none.
     */
    method Find(tag: nat) returns (found: bool)
      requires Valid()
      modifies this
      ensures Valid()
      ensures start != [] ==> found == exists i | 0 <= i < |start| :: start[i].tag == tag
      ensures start == [] ==> found == (tag == 0)
      ensures found ==> EntryAt(start, pos).tag == tag
      ensures !found ==> pos == old(pos)
    {
      var first := pos;
      ghost var steps := 0;
      ghost var n := |start|;
      while true
        invariant Valid() && n == |start|
        invariant n == 0 ==> steps == 0 && pos == first
        invariant n > 0 ==> steps < n && pos == if first + steps < n then first + steps else first + steps - n
        invariant forall i | 0 <= i < n && Visited(i, first, steps, n) :: start[i].tag != tag
        decreases n - steps
      {
        if EntryAt(start, pos).tag == tag {
          return true;
        }
        ghost var here := pos;
        var _ := Next();
        steps := steps + 1;
        if pos == first {
          return false;
        }
      }
    }
  }

  /** Positions passed in `steps` steps from `first`, going round `n` entries. */
  ghost predicate Visited(i: nat, first: nat, steps: nat, n: nat) {
    first <= i < first + steps || i < first + steps - n
  }

  /** With unique tags it does not matter where the search starts: it ends on the entry FindTag names. */
  lemma FoundIsFindTag(fields: seq<Field>, tag: nat, i: nat)
    requires DistinctTags(fields) && i < |fields| && fields[i].tag == tag
    ensures FindTag(fields, tag) == Some(i)
  {
  }
}
