/** Go slices held as a backing array and a length, and the operations of the
    standard library on them that the ring uses. */
module Slices {
  import opened Values
  import opened HashRing

  /** append: in place while the backing array has room, else into a larger copy. */
  method Append<T>(a: array<T>, n: nat, x: T) returns (b: array<T>)
    requires n <= a.Length
    modifies a
    ensures b == a || fresh(b)
    ensures n < b.Length && b[..n + 1] == old(a[..n]) + [x]
  {
    if n < a.Length {
      a[n] := x;
      b := a;
    } else {
      b := new T[2 * n + 1](_ => x);
      for i := 0 to n
        invariant a[..n] == old(a[..n])
        invariant b[..i] == a[..i] && b[n] == x
      {
        b[i] := a[i];
      }
    }
  }

  /** slices.Contains */
  method Contains<T(==)>(a: array<T>, n: nat, x: T) returns (found: bool)
    requires n <= a.Length
    ensures found <==> x in a[..n]
  {
    for i := 0 to n
      invariant x !in a[..i]
    {
      if a[i] == x {
        return true;
      }
    }
    return false;
  }

  /** slices.DeleteFunc: skips to the first element to delete, then moves the
      kept ones down in place and clears what is left over. */
  method DeleteFunc<T>(a: array<T>, n: nat, del: T -> bool, zero: T) returns (m: nat)
    requires n <= a.Length
    modifies a
    ensures m <= n && a[..m] == Filter(old(a[..n]), del)
    ensures forall k :: m <= k < n ==> a[k] == zero
    ensures a[n..] == old(a[n..])
  {
    ghost var before := a[..n];
    m := 0;
    while m < n && !del(a[m])
      invariant m <= n && a[..] == old(a[..])
      invariant Kept(before, del, m) == before[..m]
    {
      m := m + 1;
    }
    if m == n {
      return;
    }
    for j := m + 1 to n
      invariant m < j
      invariant a[..m] == Kept(before, del, j)
      invariant a[j..] == old(a[j..])
    {
      var v := a[j];
      assert v == before[j];
      if !del(v) {
        a[m] := v;
        m := m + 1;
      }
    }
    ghost var kept := a[..m];
    for k := m to n
      invariant a[..m] == kept && a[n..] == old(a[n..])
      invariant forall i :: m <= i < k ==> a[i] == zero
    {
      a[k] := zero;
    }
  }

  /** sort.Search for the first entry whose hash exceeds `h`: a binary search
      that agrees with scanning from the right. */
  method SearchAbove(a: array<VirtualNode>, n: nat, h: Hash) returns (i: nat)
    requires n <= a.Length && Sorted(a[..n])
    ensures i == UpperBound(a[..n], h)
  {
    ghost var ring, p := a[..n], UpperBound(a[..n], h);
    var j := n;
    i := 0;
    while i < j
      invariant i <= p <= j <= n
    {
      var mid := (i + j) / 2;
      assert a[mid] == ring[mid];
      if a[mid].hash <= h {
        i := mid + 1;
      } else {
        j := mid;
      }
    }
  }

  /** sortInto: append a placeholder, find the slot, shift the entries behind it
      right by one, from the far end since source and target overlap. */
  method SortInto(slice: array<VirtualNode>, n: nat, node: VirtualNode) returns (out: array<VirtualNode>)
    requires n <= slice.Length && Sorted(slice[..n])
    modifies slice
    ensures out == slice || fresh(out)
    ensures n < out.Length && out[..n + 1] == Insert(old(slice[..n]), node)
  {
    ghost var ring := slice[..n];
    out := Append(slice, n, VirtualNode("", 0, 0));
    assert out[..n] == out[..n + 1][..n] == ring;
    var i := SearchAbove(out, n, node.hash);
    OpenSlot(out, i, n);
    assert out[..i] == ring[..i] && out[i + 1..n + 1] == ring[i..];
    out[i] := node;
    InsertedAt(ring, i, node, out[..n + 1]);
  }

  lemma InsertedAt<T>(s: seq<T>, i: nat, x: T, s': seq<T>)
    requires i <= |s| && |s'| == |s| + 1
    requires s'[..i] == s[..i] && s'[i] == x && s'[i + 1..] == s[i..]
    ensures s' == InsertAt(s, i, x)
  {
    assert s' == s'[..i] + [s'[i]] + s'[i + 1..];
  }

  /** copy(a[i+1:], a[i:]) on a slice whose last element is at index n. */
  method OpenSlot<T>(a: array<T>, i: nat, n: nat)
    requires i <= n < a.Length
    modifies a
    ensures a[..i] == old(a[..i])
    ensures a[i + 1..n + 1] == old(a[i..n])
  {
    var j := n;
    while j > i
      invariant i <= j <= n
      invariant a[..j] == old(a[..j])
      invariant a[j + 1..n + 1] == old(a[j..n])
    {
      a[j] := a[j - 1];
      j := j - 1;
    }
  }
}
