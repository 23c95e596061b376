/** When two structs stand for the same message. */
module Equivalence {
  // Absent optionals, bytes behind a string's terminator or a byte count, array slots past the count and the
  // data of an unset union do not matter.

  import opened Descriptor

  predicate SameValue(f: Field, a: Value, b: Value)
    decreases f, 0
  {
    match (f.ltype, a, b)
    case (Bytes, BytesV(m, x), BytesV(n, y)) => m == n && m <= |x| && n <= |y| && x[..m] == y[..n]
    case (String, StringV(x), StringV(y)) => CString(x) == CString(y)
    case (Submessage, MessageV(x), MessageV(y)) => Same(f.sub, x, y)
    case _ => f.ltype !in {Bytes, String, Submessage} && a == b
  }

  /** The first `n` items of two arrays. */
  predicate SameItems(f: Field, a: seq<Value>, b: seq<Value>, n: nat)
    decreases f, 1
  {
    n <= |a| && n <= |b| && forall k | 0 <= k < n :: SameValue(f, a[k], b[k])
  }

  predicate SameSlot(fields: seq<Field>, h: nat, a: Slot, b: Slot)
    requires h < |fields|
    decreases fields, 0
  {
    var f := fields[h];
    match (a, b)
    case (Single(v), Single(w)) => SameValue(f, v, w)
    case (Has(p, v), Has(q, w)) => p == q && (p ==> SameValue(f, v, w))
    case (Counted(m, x), Counted(n, y)) => m == n && SameItems(f, x, y, m)
    case (Array(x), Array(y)) => |x| == |y| && SameItems(f, x, y, |x|)
    case (Union(m, v), Union(n, w)) =>
      var i := Selected(fields, h, m);
      i == Selected(fields, h, n) && (i.Some? ==> SameValue(fields[i.value], v, w)) && (m == 0 ==> n == 0)
    case (Shared, Shared) => true
    case _ => false
  }

  predicate Same(fields: seq<Field>, a: seq<Slot>, b: seq<Slot>)
    decreases fields, 1
  {
    && |a| == |b| == |fields|
    && forall h | 0 <= h < |fields| :: SameSlot(fields, h, a[h], b[h])
  }
}
