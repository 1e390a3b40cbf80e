/**
 Byte strings and the order the memtable keeps its keys in.

 Keys are `Vec<u8>` compared with the standard ordering of byte slices:
 lexicographic, byte by byte as unsigned numbers, a proper prefix sorting
 before any of its extensions.
 */
module ByteOrder {

  newtype u8 = x: int | 0 <= x < 0x100

  type Bytes = seq<u8>

  /** The three-way outcome of comparing two keys. */
  datatype Ordering = Less | Equal | Greater

  /** Byte-lexicographic "strictly before". */
  predicate LexLess(a: Bytes, b: Bytes)
  {
    if |a| == 0 then |b| > 0
    else if |b| == 0 then false
    else a[0] < b[0] || (a[0] == b[0] && LexLess(a[1..], b[1..]))
  }

  /** Three-way comparison of byte strings, as the slice ordering computes it. */
  function Compare(a: Bytes, b: Bytes): (o: Ordering)
    ensures o == Less <==> LexLess(a, b)
    ensures o == Equal <==> a == b
    ensures o == Greater <==> LexLess(b, a)
  {
    if |a| == 0 then
      (if |b| == 0 then Equal else Less)
    else if |b| == 0 then Greater
    else if a[0] < b[0] then Less
    else if b[0] < a[0] then Greater
    else
      assert a == [a[0]] + a[1..] && b == [b[0]] + b[1..];
      Compare(a[1..], b[1..])
  }

  lemma {:induction false} LexLessIrreflexive(a: Bytes)
    ensures !LexLess(a, a)
  {
    if |a| > 0 {
      LexLessIrreflexive(a[1..]);
    }
  }

  lemma {:induction false} LexLessAsymmetric(a: Bytes, b: Bytes)
    ensures LexLess(a, b) ==> !LexLess(b, a)
  {
    if |a| > 0 && |b| > 0 {
      LexLessAsymmetric(a[1..], b[1..]);
    }
  }

  lemma {:induction false} LexLessTransitive(a: Bytes, b: Bytes, c: Bytes)
    requires LexLess(a, b) && LexLess(b, c)
    ensures LexLess(a, c)
  {
    if |a| > 0 && a[0] == b[0] && b[0] == c[0] {
      LexLessTransitive(a[1..], b[1..], c[1..]);
    }
  }

  lemma {:induction false} LexLessTotal(a: Bytes, b: Bytes)
    requires a != b
    ensures LexLess(a, b) || LexLess(b, a)
  {
    if |a| > 0 && |b| > 0 && a[0] == b[0] {
      assert a == [a[0]] + a[1..] && b == [b[0]] + b[1..];
      LexLessTotal(a[1..], b[1..]);
    }
  }
}
