/** The value types every component of the cache shares. */
module Values {
  // One more than the largest 64-bit hash: the circumference of the hash circle.
  const MODULUS: int := 0x1_0000_0000_0000_0000

  /** A 64-bit hash. */
  type Hash = h: int | 0 <= h < MODULUS

  newtype byte = b: int | 0 <= b < 256

  /** A Go byte slice: a nil slice and an empty slice are told apart by the
      code, although both have length zero. */
  datatype Value = NilValue | Bytes(data: seq<byte>) {
    function Len(): nat {
      match this
      case NilValue => 0
      case Bytes(data) => |data|
    }
  }

  /** What a store keeps for a key. */
  datatype Cell = Cell(hash: Hash, value: Value)

  ghost predicate NoDuplicates<T>(s: seq<T>) {
    forall i, j :: 0 <= i < j < |s| ==> s[i] != s[j]
  }

  function Elements<T>(s: seq<T>): set<T> {
    set x | x in s
  }

  lemma {:induction false} SubsetCardinality<T>(a: set<T>, b: set<T>)
    requires a <= b
    ensures |a| <= |b|
  {
    if a != {} {
      var x :| x in a;
      SubsetCardinality(a - {x}, b - {x});
    }
  }

  lemma {:induction false} DistinctCardinality<T>(s: seq<T>)
    requires NoDuplicates(s)
    ensures |Elements(s)| == |s|
  {
    if s == [] {
      assert Elements(s) == {};
    } else {
      var last := |s| - 1;
      DistinctCardinality(s[..last]);
      assert Elements(s) == Elements(s[..last]) + {s[last]};
      assert s[last] !in Elements(s[..last]);
    }
  }
}
