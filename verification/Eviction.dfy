/** What the two evicting stores compute, on sequences of entries: FIFO on its
    order slice, oldest first; LRU on its list, most recent first. */
module Eviction {
  import opened Values

  datatype Entry = Entry(key: string, hash: Hash, value: Value)

  ghost predicate DistinctKeys(q: seq<Entry>) {
    forall i, j :: 0 <= i < j < |q| ==> q[i].key != q[j].key
  }

  function Total(q: seq<Entry>): nat {
    if q == [] then 0 else q[0].value.Len() + Total(q[1..])
  }

  predicate HasKey(q: seq<Entry>, key: string) {
    exists i :: 0 <= i < |q| && q[i].key == key
  }

  /** The place of a key's first entry at `from` or behind, or |q|. */
  function IndexFrom(q: seq<Entry>, key: string, from: nat): (i: nat)
    requires from <= |q|
    ensures from <= i <= |q|
    ensures i < |q| ==> q[i].key == key
    ensures forall j :: from <= j < i ==> q[j].key != key
    decreases |q| - from
  {
    if from == |q| || q[from].key == key then from else IndexFrom(q, key, from + 1)
  }

  function IndexOf(q: seq<Entry>, key: string): nat {
    IndexFrom(q, key, 0)
  }

  function RemoveAt<T>(s: seq<T>, i: nat): seq<T>
    requires i < |s|
  {
    s[..i] + s[i + 1..]
  }

  function Without(q: seq<Entry>, key: string): seq<Entry> {
    var i := IndexOf(q, key);
    if i < |q| then RemoveAt(q, i) else q
  }

  /** Drops the oldest entries until the rest fits. */
  function Fit(q: seq<Entry>, max: int): seq<Entry> {
    if q == [] || Total(q) <= max then q else Fit(q[1..], max)
  }

  /** Drops entries at the back until the rest fits. */
  function EvictBack(l: seq<Entry>, max: int): seq<Entry> {
    if l == [] || Total(l) <= max then l else EvictBack(l[..|l| - 1], max)
  }

  function FifoWrite(q: seq<Entry>, max: int, e: Entry): seq<Entry> {
    Fit(Without(q, e.key) + [e], max)
  }

  function LruWrite(l: seq<Entry>, max: int, e: Entry): seq<Entry> {
    EvictBack([e] + Without(l, e.key), max)
  }

  /** Moves the entry of a key to the front; nothing happens for a key not there. */
  function Promote(l: seq<Entry>, key: string): seq<Entry> {
    var i := IndexOf(l, key);
    if i < |l| then [l[i]] + RemoveAt(l, i) else l
  }

  function Lookup(q: seq<Entry>, key: string): Value {
    var i := IndexOf(q, key);
    if i < |q| then q[i].value else NilValue
  }

  // ----- basic facts

  lemma {:induction false} TotalConcat(p: seq<Entry>, q: seq<Entry>)
    ensures Total(p + q) == Total(p) + Total(q)
  {
    if p == [] {
      assert p + q == q;
    } else {
      TotalConcat(p[1..], q);
      assert (p + q)[1..] == p[1..] + q;
    }
  }

  lemma TotalSplit(q: seq<Entry>, i: nat)
    requires i < |q|
    ensures Total(q) == Total(RemoveAt(q, i)) + q[i].value.Len()
  {
    TotalConcat(q[..i], q[i + 1..]);
    TotalConcat(q[..i], q[i..]);
    assert q == q[..i] + q[i..];
    assert q[i..][0] == q[i] && q[i..][1..] == q[i + 1..];
  }

  lemma PromoteTotal(l: seq<Entry>, key: string)
    ensures Total(Promote(l, key)) == Total(l)
  {
    var i := IndexOf(l, key);
    if i < |l| {
      TotalSplit(l, i);
    }
  }

  lemma IndexUnique(q: seq<Entry>, i: nat)
    requires DistinctKeys(q) && i < |q|
    ensures IndexOf(q, q[i].key) == i
  {
  }

  lemma WithoutFacts(q: seq<Entry>, key: string)
    requires DistinctKeys(q)
    ensures DistinctKeys(Without(q, key))
    ensures forall e :: e in Without(q, key) <==> e in q && e.key != key
  {
    var i := IndexOf(q, key);
    if i < |q| {
      forall e | e in q && e.key != key
        ensures e in Without(q, key)
      {
        var j :| 0 <= j < |q| && q[j] == e;
        assert Without(q, key)[if j < i then j else j - 1] == e;
      }
    }
  }

  lemma {:induction false} FitIsSuffix(q: seq<Entry>, max: int) returns (n: nat)
    ensures n <= |q| && Fit(q, max) == q[n..]
    ensures n < |q| ==> Total(q[n..]) <= max
    ensures forall k :: 0 <= k < n ==> Total(q[k..]) > max
  {
    if q == [] || Total(q) <= max {
      n := 0;
      assert q[0..] == q;
    } else {
      n := FitIsSuffix(q[1..], max);
      n := n + 1;
      assert forall k :: 1 <= k <= |q| ==> q[1..][k - 1..] == q[k..];
      assert q[0..] == q;
    }
  }

  lemma {:induction false} SuffixTotal(q: seq<Entry>, i: nat, j: nat)
    requires i <= j <= |q|
    ensures Total(q[j..]) <= Total(q[i..])
  {
    TotalConcat(q[i..j], q[j..]);
    assert q[i..] == q[i..j] + q[j..];
  }

  // ----- FIFO

  /** Write evicts only what it must: the candidates are the other entries in
      their order and then the new one, the `n` oldest go, what is left fits,
      and it would not fit with any older candidate. */
  lemma EvictionIsMinimal(q: seq<Entry>, max: int, e: Entry) returns (n: nat)
    requires DistinctKeys(q)
    ensures var c := Without(q, e.key) + [e];
            && n <= |c| && FifoWrite(q, max, e) == c[n..] && DistinctKeys(c) && DistinctKeys(c[n..])
            && (n < |c| ==> Total(c[n..]) <= max)
            && (forall k :: 0 <= k < n ==> Total(c[k..]) > max)
  {
    n := FitIsSuffix(Without(q, e.key) + [e], max);
    WithoutFacts(q, e.key);
  }

  /** A value can be read after its write exactly if it alone fits. */
  lemma ReadableIffFits(q: seq<Entry>, max: int, e: Entry)
    requires DistinctKeys(q)
    ensures HasKey(FifoWrite(q, max, e), e.key) <==> e.value.Len() <= max
    ensures e.value.Len() <= max ==> Lookup(FifoWrite(q, max, e), e.key) == e.value
    ensures e.value.Len() > max ==> FifoWrite(q, max, e) == []
  {
    var c := Without(q, e.key) + [e];
    var n := EvictionIsMinimal(q, max, e);
    assert c[|c| - 1..] == [e] && Total([e]) == e.value.Len();
    if n < |c| {
      SuffixTotal(c, n, |c| - 1);
      assert c[n..][|c| - 1 - n] == e;
      IndexUnique(c[n..], |c| - 1 - n);
    } else {
      assert Total(c[|c| - 1..]) > max;
    }
  }

  // ----- FIFO and LRU are the same without promotions

  function Reverse<T>(s: seq<T>): (r: seq<T>)
    ensures |r| == |s|
    ensures forall i :: 0 <= i < |s| ==> r[i] == s[|s| - 1 - i]
  {
    seq(|s|, i requires 0 <= i < |s| => s[|s| - 1 - i])
  }

  lemma {:induction false} ReverseTotal(q: seq<Entry>)
    ensures Total(Reverse(q)) == Total(q)
  {
    if q != [] {
      ReverseTotal(q[1..]);
      assert Reverse(q) == Reverse(q[1..]) + [q[0]];
      TotalConcat(Reverse(q[1..]), [q[0]]);
      assert Total([q[0]]) == q[0].value.Len();
    }
  }

  lemma ReverseWithout(q: seq<Entry>, key: string)
    requires DistinctKeys(q)
    ensures DistinctKeys(Reverse(q)) && Reverse(Without(q, key)) == Without(Reverse(q), key)
  {
    var i := IndexOf(q, key);
    if i < |q| {
      assert Reverse(q)[|q| - 1 - i] == q[i];
      IndexUnique(Reverse(q), |q| - 1 - i);
      assert Reverse(RemoveAt(q, i)) == RemoveAt(Reverse(q), |q| - 1 - i);
    }
  }

  lemma {:induction false} ReverseFit(q: seq<Entry>, max: int)
    ensures Reverse(Fit(q, max)) == EvictBack(Reverse(q), max)
  {
    ReverseTotal(q);
    if q != [] && Total(q) > max {
      ReverseFit(q[1..], max);
      assert Reverse(q)[..|q| - 1] == Reverse(q[1..]);
    }
  }

  /** One write does the same to a FIFO store and to the LRU store whose list is
      the reverse of its order. */
  lemma WritesAgree(q: seq<Entry>, max: int, e: Entry)
    requires DistinctKeys(q)
    ensures LruWrite(Reverse(q), max, e) == Reverse(FifoWrite(q, max, e))
  {
    var c := Without(q, e.key) + [e];
    ReverseWithout(q, e.key);
    assert Reverse(c) == [e] + Reverse(Without(q, e.key));
    ReverseFit(c, max);
  }
}
