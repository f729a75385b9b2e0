/** Runs of operations on the three stores: how they compare with each other
    and with a textbook least-recently-used cache. */
module CacheTheory {
  import opened Values
  import opened Eviction

  // Reads waiting to be applied; a read is not queued when the queue is full.
  const QUEUE: nat := 512

  /** What happens to a store. `Promoter` is the goroutine that applies one queued read. */
  datatype Op =
    | Write(key: string, hash: Hash, value: Value)
    | Delete(key: string)
    | Read(key: string)
    | Promoter

  datatype Lru = Lru(list: seq<Entry>, queue: seq<string>)

  function FifoStep(q: seq<Entry>, max: int, op: Op): seq<Entry> {
    match op
    case Write(key, hash, value) => FifoWrite(q, max, Entry(key, hash, value))
    case Delete(key) => Without(q, key)
    case Read(_) => q
    case Promoter => q
  }

  function LruStep(st: Lru, max: int, op: Op): Lru {
    match op
    case Write(key, hash, value) => st.(list := LruWrite(st.list, max, Entry(key, hash, value)))
    case Delete(key) => st.(list := Without(st.list, key))
    case Read(key) => if HasKey(st.list, key) && |st.queue| < QUEUE then st.(queue := st.queue + [key]) else st
    case Promoter => if st.queue == [] then st else Lru(Promote(st.list, st.queue[0]), st.queue[1..])
  }

  function MapStep(cells: map<string, Cell>, op: Op): map<string, Cell> {
    match op
    case Write(key, hash, value) => cells[key := Cell(hash, value)]
    case Delete(key) => cells - {key}
    case Read(_) => cells
    case Promoter => cells
  }

  function FifoRun(max: int, ops: seq<Op>): seq<Entry> {
    if ops == [] then [] else FifoStep(FifoRun(max, ops[..|ops| - 1]), max, ops[|ops| - 1])
  }

  function LruRun(max: int, ops: seq<Op>): Lru {
    if ops == [] then Lru([], []) else LruStep(LruRun(max, ops[..|ops| - 1]), max, ops[|ops| - 1])
  }

  function MapRun(ops: seq<Op>): map<string, Cell> {
    if ops == [] then map[] else MapStep(MapRun(ops[..|ops| - 1]), ops[|ops| - 1])
  }

  // ----- keys stay distinct

  lemma {:induction false} FifoDistinct(max: int, ops: seq<Op>)
    ensures DistinctKeys(FifoRun(max, ops))
  {
    if ops != [] {
      var q, op := FifoRun(max, ops[..|ops| - 1]), ops[|ops| - 1];
      FifoDistinct(max, ops[..|ops| - 1]);
      match op
      case Write(key, hash, value) => var n := EvictionIsMinimal(q, max, Entry(key, hash, value));
      case Delete(key) => WithoutFacts(q, key);
      case Read(_) =>
      case Promoter =>
    }
  }

  lemma {:induction false} EvictBackIsPrefix(l: seq<Entry>, max: int) returns (n: nat)
    ensures n <= |l| && EvictBack(l, max) == l[..n]
  {
    if l == [] || Total(l) <= max {
      n := |l|;
    } else {
      n := EvictBackIsPrefix(l[..|l| - 1], max);
      assert l[..|l| - 1][..n] == l[..n];
    }
  }

  /** A promotion changes the order and nothing else. */
  lemma PromoteFacts(l: seq<Entry>, key: string)
    requires DistinctKeys(l)
    ensures DistinctKeys(Promote(l, key))
    ensures forall e :: e in Promote(l, key) <==> e in l
    ensures !HasKey(l, key) ==> Promote(l, key) == l
  {
    var i := IndexOf(l, key);
    if i < |l| {
      CandidateFacts(l, l[i], Promote(l, key));
      forall e | e in l && e.key == key
        ensures e == l[i]
      {
        var j :| 0 <= j < |l| && l[j] == e;
      }
    }
  }

  lemma LruWriteFacts(l: seq<Entry>, max: int, e: Entry) returns (n: nat)
    requires DistinctKeys(l)
    ensures var c := [e] + Without(l, e.key);
            n <= |c| && LruWrite(l, max, e) == c[..n] && DistinctKeys(c) && DistinctKeys(c[..n])
  {
    WithoutFacts(l, e.key);
    n := EvictBackIsPrefix([e] + Without(l, e.key), max);
  }

  lemma LruStepDistinct(st: Lru, max: int, op: Op)
    requires DistinctKeys(st.list)
    ensures DistinctKeys(LruStep(st, max, op).list)
  {
    match op
    case Write(key, hash, value) => var n := LruWriteFacts(st.list, max, Entry(key, hash, value));
    case Delete(key) => WithoutFacts(st.list, key);
    case Read(_) =>
    case Promoter => if st.queue != [] { PromoteFacts(st.list, st.queue[0]); }
  }

  lemma {:induction false} LruDistinct(max: int, ops: seq<Op>)
    ensures DistinctKeys(LruRun(max, ops).list)
  {
    if ops != [] {
      LruDistinct(max, ops[..|ops| - 1]);
      LruStepDistinct(LruRun(max, ops[..|ops| - 1]), max, ops[|ops| - 1]);
    }
  }

  // ----- FIFO against LRU

  /** Until a read is promoted, LRU is FIFO with the order turned around: same
      keys, hashes, values, and bytes. */
  lemma {:induction false} FifoIsReverseOfLru(max: int, ops: seq<Op>)
    requires forall op :: op in ops ==> !op.Promoter?
    ensures LruRun(max, ops).list == Reverse(FifoRun(max, ops))
    ensures Total(LruRun(max, ops).list) == Total(FifoRun(max, ops))
  {
    if ops != [] {
      var rest, op := ops[..|ops| - 1], ops[|ops| - 1];
      FifoIsReverseOfLru(max, rest);
      FifoDistinct(max, rest);
      assert op in ops;
      match op
      case Write(key, hash, value) => WritesAgree(FifoRun(max, rest), max, Entry(key, hash, value));
      case Delete(key) => ReverseWithout(FifoRun(max, rest), key);
      case Read(_) =>
    }
    ReverseTotal(FifoRun(max, ops));
  }

  lemma ReverseTwice<T>(s: seq<T>)
    ensures Reverse(Reverse(s)) == s
  {
  }

  lemma ReverseLookup(q: seq<Entry>, key: string)
    requires DistinctKeys(q)
    ensures Lookup(Reverse(q), key) == Lookup(q, key) && (HasKey(Reverse(q), key) <==> HasKey(q, key))
  {
    var i := IndexOf(q, key);
    ReverseWithout(q, key);
    if i < |q| {
      assert Reverse(q)[|q| - 1 - i] == q[i];
      IndexUnique(Reverse(q), |q| - 1 - i);
    } else {
      assert forall j :: 0 <= j < |q| ==> Reverse(q)[j] == q[|q| - 1 - j];
    }
  }

  /** In LRU, too, a value can be read after its write exactly if it alone fits. */
  lemma LruReadableIffFits(l: seq<Entry>, max: int, e: Entry)
    requires DistinctKeys(l)
    ensures HasKey(LruWrite(l, max, e), e.key) <==> e.value.Len() <= max
    ensures Lookup(LruWrite(l, max, e), e.key) == if e.value.Len() <= max then e.value else NilValue
  {
    var q := Reverse(l);
    ReverseTwice(l);
    ReverseWithout(l, e.key);
    WritesAgree(q, max, e);
    ReadableIffFits(q, max, e);
    var n := EvictionIsMinimal(q, max, e);
    ReverseLookup(FifoWrite(q, max, e), e.key);
  }

  // ----- against the plain map

  /** Every entry is in the map. */
  ghost predicate Submap(q: seq<Entry>, cells: map<string, Cell>) {
    forall e :: e in q ==> e.key in cells && cells[e.key] == Cell(e.hash, e.value)
  }

  /** The entries are the map's cells, each once. */
  ghost predicate Enumerates(q: seq<Entry>, cells: map<string, Cell>) {
    DistinctKeys(q) && Submap(q, cells) && forall k :: k in cells ==> HasKey(q, k)
  }

  /** The bytes in the map. */
  ghost function Size(cells: map<string, Cell>): nat
    decreases |cells|
  {
    if cells == map[] then 0
    else
      var k :| k in cells;
      assert (cells - {k}).Keys == cells.Keys - {k};
      cells[k].value.Len() + Size(cells - {k})
  }

  lemma {:induction false} SizeWithout(cells: map<string, Cell>, k: string)
    requires k in cells
    ensures Size(cells) == cells[k].value.Len() + Size(cells - {k})
    decreases |cells|
  {
    var j :| j in cells && Size(cells) == cells[j].value.Len() + Size(cells - {j});
    if j != k {
      assert (cells - {j}).Keys == cells.Keys - {j} && (cells - {k}).Keys == cells.Keys - {k};
      SizeWithout(cells - {j}, k);
      SizeWithout(cells - {k}, j);
      assert cells - {j} - {k} == cells - {k} - {j};
    }
  }

  lemma {:induction false} EnumerationTotal(q: seq<Entry>, cells: map<string, Cell>)
    requires Enumerates(q, cells)
    ensures Total(q) == Size(cells)
  {
    if q == [] {
      assert forall k :: k in cells ==> HasKey(q, k);
      assert cells == map[];
    } else {
      EnumerationRest(q, cells);
      SizeWithout(cells, q[0].key);
      EnumerationTotal(q[1..], cells - {q[0].key});
    }
  }

  lemma EnumerationRest(q: seq<Entry>, cells: map<string, Cell>)
    requires Enumerates(q, cells) && q != []
    ensures q[0].key in cells && cells[q[0].key] == Cell(q[0].hash, q[0].value)
    ensures Enumerates(q[1..], cells - {q[0].key})
  {
    assert q[0] in q;
    forall k | k in cells - {q[0].key}
      ensures HasKey(q[1..], k)
    {
      var i :| 0 <= i < |q| && q[i].key == k;
      assert q[1..][i - 1] == q[i];
    }
  }

  /** The candidates of a write, in either order. */
  lemma EnumerateWrite(q: seq<Entry>, cells: map<string, Cell>, e: Entry, c: seq<Entry>)
    requires DistinctKeys(q) && Submap(q, cells)
    requires c == Without(q, e.key) + [e] || c == [e] + Without(q, e.key)
    ensures Submap(c, cells[e.key := Cell(e.hash, e.value)])
    ensures Enumerates(q, cells) ==> Enumerates(c, cells[e.key := Cell(e.hash, e.value)])
  {
    WithoutFacts(q, e.key);
    CandidateFacts(q, e, c);
    forall k | k in cells[e.key := Cell(e.hash, e.value)] && Enumerates(q, cells)
      ensures HasKey(c, k)
    {
      if k == e.key {
        HasKeyIff(c, e);
      } else {
        var i :| 0 <= i < |q| && q[i].key == k;
        HasKeyIff(c, q[i]);
      }
    }
  }

  lemma CandidateFacts(q: seq<Entry>, e: Entry, c: seq<Entry>)
    requires DistinctKeys(q)
    requires c == Without(q, e.key) + [e] || c == [e] + Without(q, e.key)
    ensures DistinctKeys(c) && forall x :: x in c <==> x == e || (x in q && x.key != e.key)
  {
    WithoutFacts(q, e.key);
    assert forall x :: x in c <==> x == e || x in Without(q, e.key);
  }

  lemma HasKeyIff(q: seq<Entry>, e: Entry)
    requires e in q
    ensures HasKey(q, e.key)
  {
    var i :| 0 <= i < |q| && q[i] == e;
  }

  lemma EnumerateDelete(q: seq<Entry>, cells: map<string, Cell>, key: string)
    requires DistinctKeys(q) && Submap(q, cells)
    ensures Submap(Without(q, key), cells - {key})
    ensures Enumerates(q, cells) ==> Enumerates(Without(q, key), cells - {key})
  {
    WithoutFacts(q, key);
    forall k | k in cells - {key} && Enumerates(q, cells)
      ensures HasKey(Without(q, key), k)
    {
      var i :| 0 <= i < |q| && q[i].key == k;
      HasKeyIff(Without(q, key), q[i]);
    }
  }

  lemma EnumeratePromote(l: seq<Entry>, cells: map<string, Cell>, key: string)
    requires DistinctKeys(l) && Submap(l, cells)
    ensures Submap(Promote(l, key), cells)
    ensures Enumerates(l, cells) ==> Enumerates(Promote(l, key), cells)
  {
    PromoteFacts(l, key);
    forall k | k in cells && Enumerates(l, cells)
      ensures HasKey(Promote(l, key), k)
    {
      var i :| 0 <= i < |l| && l[i].key == k;
      HasKeyIff(Promote(l, key), l[i]);
    }
  }

  /** Whatever happens, the plain map never held more than `max` bytes. */
  ghost predicate AlwaysFits(max: int, ops: seq<Op>) {
    forall n :: 0 <= n <= |ops| ==> Size(MapRun(ops[..n])) <= max
  }

  lemma AlwaysFitsBefore(max: int, ops: seq<Op>)
    requires AlwaysFits(max, ops) && ops != []
    ensures AlwaysFits(max, ops[..|ops| - 1]) && Size(MapRun(ops)) <= max
  {
    var rest := ops[..|ops| - 1];
    forall n | 0 <= n <= |rest|
      ensures Size(MapRun(rest[..n])) <= max
    {
      assert rest[..n] == ops[..n];
    }
    assert ops[..|ops|] == ops;
  }

  /** Coherence of FIFO: it never holds anything that the plain map does not,
      and holds all of it as long as nothing had to go. */
  lemma {:induction false} FifoCoherent(max: int, ops: seq<Op>)
    ensures Submap(FifoRun(max, ops), MapRun(ops))
    ensures AlwaysFits(max, ops) ==> Enumerates(FifoRun(max, ops), MapRun(ops))
  {
    if ops != [] {
      var rest, op := ops[..|ops| - 1], ops[|ops| - 1];
      var q, cells := FifoRun(max, rest), MapRun(rest);
      FifoCoherent(max, rest);
      FifoDistinct(max, rest);
      if AlwaysFits(max, ops) {
        AlwaysFitsBefore(max, ops);
      }
      match op
      case Write(key, hash, value) => FifoWriteCoherent(q, cells, max, Entry(key, hash, value));
      case Delete(key) => EnumerateDelete(q, cells, key);
      case Read(_) =>
      case Promoter =>
    }
  }

  lemma FifoWriteCoherent(q: seq<Entry>, cells: map<string, Cell>, max: int, e: Entry)
    requires DistinctKeys(q) && Submap(q, cells)
    ensures var cells' := cells[e.key := Cell(e.hash, e.value)];
            && Submap(FifoWrite(q, max, e), cells')
            && (Enumerates(q, cells) && Size(cells') <= max ==> Enumerates(FifoWrite(q, max, e), cells'))
  {
    var c, cells' := Without(q, e.key) + [e], cells[e.key := Cell(e.hash, e.value)];
    var n := EvictionIsMinimal(q, max, e);
    EnumerateWrite(q, cells, e, c);
    if Enumerates(q, cells) {
      EnumerationTotal(c, cells');
    }
  }

  /** Coherence of LRU, with reads and promotions in any interleaving. */
  lemma {:induction false} LruCoherent(max: int, ops: seq<Op>)
    ensures Submap(LruRun(max, ops).list, MapRun(ops))
    ensures AlwaysFits(max, ops) ==> Enumerates(LruRun(max, ops).list, MapRun(ops))
  {
    if ops != [] {
      var rest, op := ops[..|ops| - 1], ops[|ops| - 1];
      var st, cells := LruRun(max, rest), MapRun(rest);
      LruCoherent(max, rest);
      LruDistinct(max, rest);
      if AlwaysFits(max, ops) {
        AlwaysFitsBefore(max, ops);
      }
      match op
      case Write(key, hash, value) => LruWriteCoherent(st.list, cells, max, Entry(key, hash, value));
      case Delete(key) => EnumerateDelete(st.list, cells, key);
      case Read(_) =>
      case Promoter => if st.queue != [] { EnumeratePromote(st.list, cells, st.queue[0]); }
    }
  }

  lemma LruWriteCoherent(l: seq<Entry>, cells: map<string, Cell>, max: int, e: Entry)
    requires DistinctKeys(l) && Submap(l, cells)
    ensures var cells' := cells[e.key := Cell(e.hash, e.value)];
            && Submap(LruWrite(l, max, e), cells')
            && (Enumerates(l, cells) && Size(cells') <= max ==> Enumerates(LruWrite(l, max, e), cells'))
  {
    var c, cells' := [e] + Without(l, e.key), cells[e.key := Cell(e.hash, e.value)];
    var n := LruWriteFacts(l, max, e);
    EnumerateWrite(l, cells, e, c);
    if Enumerates(l, cells) {
      EnumerationTotal(c, cells');
    }
  }

  // ----- against a textbook LRU cache

  /** A cache that moves an entry to the front the moment it is read. */
  function ExactStep(l: seq<Entry>, max: int, op: Op): seq<Entry> {
    match op
    case Write(key, hash, value) => LruWrite(l, max, Entry(key, hash, value))
    case Delete(key) => Without(l, key)
    case Read(key) => Promote(l, key)
    case Promoter => l
  }

  function ExactRun(max: int, ops: seq<Op>): seq<Entry> {
    if ops == [] then [] else ExactStep(ExactRun(max, ops[..|ops| - 1]), max, ops[|ops| - 1])
  }

  /** The list once the queued reads are applied. */
  function Drained(l: seq<Entry>, queue: seq<string>): seq<Entry> {
    if queue == [] then l else Promote(Drained(l, queue[..|queue| - 1]), queue[|queue| - 1])
  }

  /** The promoter keeps up: no write while reads are queued, no read lost to a full queue. */
  ghost predicate KeepsUp(max: int, ops: seq<Op>) {
    forall n :: 0 <= n < |ops| ==> PromptAt(LruRun(max, ops[..n]), ops[n])
  }

  ghost predicate PromptAt(st: Lru, op: Op) {
    match op
    case Write(_, _, _) => st.queue == []
    case Read(key) => HasKey(st.list, key) ==> |st.queue| < QUEUE
    case Delete(_) => true
    case Promoter => true
  }

  lemma {:induction false} DrainedDistinct(l: seq<Entry>, queue: seq<string>)
    requires DistinctKeys(l)
    ensures DistinctKeys(Drained(l, queue))
    ensures forall k :: HasKey(Drained(l, queue), k) <==> HasKey(l, k)
  {
    if queue != [] {
      var rest, k := queue[..|queue| - 1], queue[|queue| - 1];
      DrainedDistinct(l, rest);
      PromoteFacts(Drained(l, rest), k);
      forall j
        ensures HasKey(Drained(l, queue), j) <==> HasKey(Drained(l, rest), j)
      {
        SameEntriesSameKeys(Drained(l, queue), Drained(l, rest), j);
      }
    }
  }

  lemma SameEntriesSameKeys(p: seq<Entry>, q: seq<Entry>, k: string)
    requires forall e :: e in p <==> e in q
    ensures HasKey(p, k) <==> HasKey(q, k)
  {
    if HasKey(p, k) {
      var i :| 0 <= i < |p| && p[i].key == k;
      HasKeyIff(q, p[i]);
    }
    if HasKey(q, k) {
      var i :| 0 <= i < |q| && q[i].key == k;
      HasKeyIff(p, q[i]);
    }
  }

  lemma {:induction false} DrainedFront(l: seq<Entry>, queue: seq<string>)
    requires queue != []
    ensures Drained(Promote(l, queue[0]), queue[1..]) == Drained(l, queue)
  {
    if |queue| > 1 {
      DrainedFront(l, queue[..|queue| - 1]);
      assert queue[..|queue| - 1][1..] == queue[1..][..|queue[1..]| - 1];
    } else {
      assert queue[..0] == [];
    }
  }

  lemma RemoveTwo(l: seq<Entry>, i: nat, j: nat)
    requires i < j < |l|
    ensures RemoveAt(RemoveAt(l, i), j - 1) == RemoveAt(RemoveAt(l, j), i)
  {
  }

  /** Where the others are once one is gone. */
  lemma IndexAfterRemove(l: seq<Entry>, i: nat, j: nat)
    requires DistinctKeys(l) && i < |l| && j < |l| && i != j
    ensures IndexOf(RemoveAt(l, i), l[j].key) == if j < i then j else j - 1
    ensures RemoveAt(l, i)[if j < i then j else j - 1] == l[j]
  {
    WithoutFacts(l, l[i].key);
    IndexUnique(l, i);
    IndexUnique(RemoveAt(l, i), if j < i then j else j - 1);
  }

  lemma PromoteWithout(l: seq<Entry>, k: string, key: string)
    requires DistinctKeys(l)
    ensures Promote(Without(l, key), k) == Without(Promote(l, k), key)
  {
    var i, j := IndexOf(l, k), IndexOf(l, key);
    if i == |l| || j == |l| {
      AbsentKeys(l, k, key);
    } else if i == j {
      RemovePromoted(l[i], RemoveAt(l, i));
      WithoutFacts(l, key);
      assert IndexOf(Without(l, key), key) == |Without(l, key)|;
    } else {
      PromoteOther(l, i, j);
    }
  }

  lemma RemovePromoted(e: Entry, rest: seq<Entry>)
    ensures Without([e] + rest, e.key) == rest
  {
    assert RemoveAt([e] + rest, 0) == rest;
  }

  lemma PromoteOther(l: seq<Entry>, i: nat, j: nat)
    requires DistinctKeys(l) && i < |l| && j < |l| && i != j
    ensures Promote(Without(l, l[j].key), l[i].key) == Without(Promote(l, l[i].key), l[j].key)
  {
    IndexUnique(l, i);
    IndexUnique(l, j);
    RemoveThenPromote(l, i, j);
    PromoteThenRemove(l, i, j);
    RemoveTwo(l, if i < j then i else j, if i < j then j else i);
  }

  lemma RemoveThenPromote(l: seq<Entry>, i: nat, j: nat)
    requires DistinctKeys(l) && i < |l| && j < |l| && i != j
    ensures Promote(RemoveAt(l, j), l[i].key) == [l[i]] + RemoveAt(RemoveAt(l, j), if i < j then i else i - 1)
  {
    IndexAfterRemove(l, j, i);
  }

  lemma PromoteThenRemove(l: seq<Entry>, i: nat, j: nat)
    requires DistinctKeys(l) && i < |l| && j < |l| && i != j
    ensures Without([l[i]] + RemoveAt(l, i), l[j].key) == [l[i]] + RemoveAt(RemoveAt(l, i), if j < i then j else j - 1)
  {
    var rest, j' := RemoveAt(l, i), if j < i then j else j - 1;
    IndexAfterRemove(l, i, j);
    IndexBehind(l[i], rest, j');
    RemoveInTail(l[i], rest, j');
  }

  lemma IndexBehind(e: Entry, rest: seq<Entry>, j: nat)
    requires j < |rest| && IndexOf(rest, rest[j].key) == j && e.key != rest[j].key
    ensures IndexOf([e] + rest, rest[j].key) == j + 1
  {
    var i := IndexOf([e] + rest, rest[j].key);
    assert ([e] + rest)[j + 1] == rest[j];
    assert i > 0 && (i - 1 < |rest| ==> ([e] + rest)[i] == rest[i - 1]);
  }

  lemma RemoveInTail(e: Entry, rest: seq<Entry>, j: nat)
    requires j < |rest|
    ensures RemoveAt([e] + rest, j + 1) == [e] + RemoveAt(rest, j)
  {
  }

  lemma AbsentKeys(l: seq<Entry>, k: string, key: string)
    requires DistinctKeys(l) && (IndexOf(l, k) == |l| || IndexOf(l, key) == |l|)
    ensures Promote(Without(l, key), k) == Without(Promote(l, k), key)
  {
    WithoutFacts(l, key);
    PromoteFacts(l, k);
    if IndexOf(l, key) == |l| {
      assert forall e :: e in Promote(l, k) ==> e.key != key;
    } else {
      assert forall e :: e in Without(l, key) ==> e.key != k;
    }
  }

  lemma {:induction false} DrainedWithout(l: seq<Entry>, queue: seq<string>, key: string)
    requires DistinctKeys(l)
    ensures Drained(Without(l, key), queue) == Without(Drained(l, queue), key)
  {
    if queue != [] {
      var rest := queue[..|queue| - 1];
      DrainedWithout(l, rest, key);
      DrainedDistinct(l, rest);
      PromoteWithout(Drained(l, rest), queue[|queue| - 1], key);
    }
  }

  lemma KeepsUpBefore(max: int, ops: seq<Op>)
    requires KeepsUp(max, ops) && ops != []
    ensures KeepsUp(max, ops[..|ops| - 1]) && PromptAt(LruRun(max, ops[..|ops| - 1]), ops[|ops| - 1])
  {
    var rest := ops[..|ops| - 1];
    forall n | 0 <= n < |rest|
      ensures PromptAt(LruRun(max, rest[..n]), rest[n])
    {
      assert rest[..n] == ops[..n] && rest[n] == ops[n];
    }
  }

  /** As long as the promoter keeps up, the store is an exact LRU cache, short of
      the reads that are queued: with an empty queue, entry for entry. */
  lemma {:induction false} LruIsExactIfPromoterKeepsUp(max: int, ops: seq<Op>)
    requires KeepsUp(max, ops)
    ensures Drained(LruRun(max, ops).list, LruRun(max, ops).queue) == ExactRun(max, ops)
  {
    if ops != [] {
      var rest, op := ops[..|ops| - 1], ops[|ops| - 1];
      var st := LruRun(max, rest);
      KeepsUpBefore(max, ops);
      LruIsExactIfPromoterKeepsUp(max, rest);
      LruDistinct(max, rest);
      match op
      case Write(_, _, _) =>
      case Delete(key) => DrainedWithout(st.list, st.queue, key);
      case Read(key) =>
        DrainedDistinct(st.list, st.queue);
        PromoteFacts(Drained(st.list, st.queue), key);
        assert (st.queue + [key])[..|st.queue|] == st.queue;
      case Promoter => if st.queue != [] { DrainedFront(st.list, st.queue); }
    }
  }

  lemma OneMore(max: int, ops: seq<Op>, op: Op)
    ensures LruRun(max, ops + [op]) == LruStep(LruRun(max, ops), max, op)
    ensures ExactRun(max, ops + [op]) == ExactStep(ExactRun(max, ops), max, op)
  {
    assert (ops + [op])[..|ops|] == ops;
  }

  // ----- what a read leaves behind

  /** A read leaves something behind exactly if it finds its key, and fewer than
      512 reads waiting: then the key is the last one waiting. */
  lemma ReadShowsIff(max: int, ops: seq<Op>, key: string)
    ensures var st, st' := LruRun(max, ops), LruRun(max, ops + [Read(key)]);
            if HasKey(st.list, key) && |st.queue| < 512 then st' == Lru(st.list, st.queue + [key]) else st' == st
  {
    OneMore(max, ops, Read(key));
  }

  lemma SameStep(max: int, ops: seq<Op>, ops': seq<Op>, op: Op)
    requires LruRun(max, ops) == LruRun(max, ops')
    ensures LruRun(max, ops + [op]) == LruRun(max, ops' + [op])
  {
    OneMore(max, ops, op);
    OneMore(max, ops', op);
  }

  lemma Extended<T>(before: seq<T>, after: seq<T>, n: nat)
    requires 0 < n <= |after|
    ensures before + after[..n] == (before + after[..n - 1]) + [after[n - 1]]
  {
  }

  /** What has come to the same goes on the same. */
  lemma {:induction false} SameContinuation(max: int, ops: seq<Op>, ops': seq<Op>, after: seq<Op>, n: nat)
    requires n <= |after| && LruRun(max, ops) == LruRun(max, ops')
    ensures LruRun(max, ops + after[..n]) == LruRun(max, ops' + after[..n])
    decreases n
  {
    if n == 0 {
      assert ops + after[..0] == ops && ops' + after[..0] == ops';
    } else {
      SameContinuation(max, ops, ops', after, n - 1);
      Extended(ops, after, n);
      Extended(ops', after, n);
      SameStep(max, ops + after[..n - 1], ops' + after[..n - 1], after[n - 1]);
    }
  }

  /** So any other read is invisible: whatever happens after it, list and queue are
      as without it. */
  lemma MissIsInvisible(max: int, before: seq<Op>, key: string, after: seq<Op>)
    requires !HasKey(LruRun(max, before).list, key) || |LruRun(max, before).queue| >= 512
    ensures LruRun(max, before + [Read(key)] + after) == LruRun(max, before + after)
  {
    ReadShowsIff(max, before, key);
    SameContinuation(max, before + [Read(key)], before, after, |after|);
    assert after[..|after|] == after;
  }

  /** At place `j` of the run, the key is read and there. */
  ghost predicate HitAt(max: int, ops: seq<Op>, j: nat, key: string) {
    j < |ops| && ops[j] == Read(key) && HasKey(LruRun(max, ops[..j]).list, key)
  }

  ghost predicate HitsAt(max: int, ops: seq<Op>, places: seq<nat>, keys: seq<string>) {
    && |places| == |keys| <= 512
    && (forall i, j :: 0 <= i < j < |places| ==> places[i] < places[j])
    && forall i :: 0 <= i < |keys| ==> HitAt(max, ops, places[i], keys[i])
  }

  lemma HitsBefore(max: int, ops: seq<Op>, op: Op, places: seq<nat>, keys: seq<string>)
    requires HitsAt(max, ops, places, keys)
    ensures HitsAt(max, ops + [op], places, keys)
  {
    forall i | 0 <= i < |keys|
      ensures HitAt(max, ops + [op], places[i], keys[i])
    {
      assert HitAt(max, ops, places[i], keys[i]);
      assert (ops + [op])[..places[i]] == ops[..places[i]];
    }
  }

  /** Whatever waits to be applied was stored when it was read, and waits in the order of the reads. */
  lemma {:induction false} QueuedWereStored(max: int, ops: seq<Op>) returns (places: seq<nat>)
    ensures HitsAt(max, ops, places, LruRun(max, ops).queue)
  {
    places := [];
    if ops != [] {
      var rest, op := ops[..|ops| - 1], ops[|ops| - 1];
      var queue := LruRun(max, rest).queue;
      assert ops == rest + [op];
      places := QueuedWereStored(max, rest);
      HitsBefore(max, rest, op, places, queue);
      if op.Promoter? && queue != [] {
        HitsOn(max, ops, places, queue);
        places := places[1..];
      } else if |LruRun(max, ops).queue| > |queue| {
        HitsEarlier(max, rest, places, queue);
        LastHit(max, rest, op);
        OneMoreHit(max, ops, places, queue, |rest|, op.key);
        places := places + [|rest|];
      }
    }
  }

  lemma HitsOn(max: int, ops: seq<Op>, places: seq<nat>, keys: seq<string>)
    requires HitsAt(max, ops, places, keys) && keys != []
    ensures HitsAt(max, ops, places[1..], keys[1..])
  {
  }

  lemma LastHit(max: int, rest: seq<Op>, op: Op)
    requires op.Read? && HasKey(LruRun(max, rest).list, op.key)
    ensures HitAt(max, rest + [op], |rest|, op.key)
  {
    assert (rest + [op])[..|rest|] == rest;
  }

  lemma HitsEarlier(max: int, ops: seq<Op>, places: seq<nat>, keys: seq<string>)
    requires HitsAt(max, ops, places, keys)
    ensures forall i :: 0 <= i < |places| ==> places[i] < |ops|
  {
    forall i | 0 <= i < |places|
      ensures places[i] < |ops|
    {
      assert HitAt(max, ops, places[i], keys[i]);
    }
  }

  lemma OneMoreHit(max: int, ops: seq<Op>, places: seq<nat>, keys: seq<string>, j: nat, key: string)
    requires HitsAt(max, ops, places, keys) && |keys| < 512 && HitAt(max, ops, j, key)
    requires forall i :: 0 <= i < |places| ==> places[i] < j
    ensures HitsAt(max, ops, places + [j], keys + [key])
  {
  }

  // ----- what the order means

  /** The operation moves the key's entry to the front. */
  predicate Touches(st: Lru, op: Op, key: string) {
    || (op.Write? && op.key == key)
    || (op.Promoter? && st.queue != [] && st.queue[0] == key && HasKey(st.list, key))
  }

  ghost predicate TouchesOnly(st: Lru, op: Op, key: string) {
    forall k :: Touches(st, op, k) <==> k == key
  }

  ghost predicate TouchesNone(st: Lru, op: Op) {
    forall k :: !Touches(st, op, k)
  }

  /** When a key was last touched; -1 for never. */
  function LastTouch(max: int, ops: seq<Op>, key: string): int {
    if ops == [] then -1
    else
      var rest := ops[..|ops| - 1];
      if Touches(LruRun(max, rest), ops[|ops| - 1], key) then |ops| - 1 else LastTouch(max, rest, key)
  }

  lemma {:induction false} TouchedBefore(max: int, ops: seq<Op>, key: string)
    ensures LastTouch(max, ops, key) < |ops|
  {
    if ops != [] {
      TouchedBefore(max, ops[..|ops| - 1], key);
    }
  }

  /** Every entry was touched later than the one behind it. */
  ghost predicate ByTouch(max: int, ops: seq<Op>, l: seq<Entry>) {
    forall i, j :: 0 <= i < j < |l| ==> LastTouch(max, ops, l[i].key) > LastTouch(max, ops, l[j].key)
  }

  /** However writes, deletes, reads and promotions interleave, the list is
      ordered by the last write or applied promotion, latest first. */
  lemma {:induction false} ListIsSortedByTouch(max: int, ops: seq<Op>)
    ensures ByTouch(max, ops, LruRun(max, ops).list)
  {
    if ops != [] {
      var rest, op := ops[..|ops| - 1], ops[|ops| - 1];
      var st := LruRun(max, rest);
      ListIsSortedByTouch(max, rest);
      LruDistinct(max, rest);
      match op
      case Write(key, hash, value) =>
        var e := Entry(key, hash, value);
        var n := LruWriteFacts(st.list, max, e);
        ToFront(max, ops, st.list, e);
      case Delete(key) =>
        Untouched(max, ops, st.list);
        WithoutByTouch(max, ops, st.list, key);
      case Read(_) => Untouched(max, ops, st.list);
      case Promoter =>
        if st.queue != [] && HasKey(st.list, st.queue[0]) {
          ToFront(max, ops, st.list, st.list[IndexOf(st.list, st.queue[0])]);
        } else {
          Untouched(max, ops, st.list);
        }
    }
  }

  lemma Untouched(max: int, ops: seq<Op>, l: seq<Entry>)
    requires ops != [] && ByTouch(max, ops[..|ops| - 1], l)
    requires TouchesNone(LruRun(max, ops[..|ops| - 1]), ops[|ops| - 1])
    ensures ByTouch(max, ops, l)
  {
  }

  lemma WithoutByTouch(max: int, ops: seq<Op>, l: seq<Entry>, key: string)
    requires ByTouch(max, ops, l)
    ensures ByTouch(max, ops, Without(l, key))
  {
  }

  lemma ToFront(max: int, ops: seq<Op>, l: seq<Entry>, e: Entry)
    requires ops != [] && DistinctKeys(l) && ByTouch(max, ops[..|ops| - 1], l)
    requires TouchesOnly(LruRun(max, ops[..|ops| - 1]), ops[|ops| - 1], e.key)
    ensures ByTouch(max, ops, [e] + Without(l, e.key))
  {
    var l' := [e] + Without(l, e.key);
    WithoutFacts(l, e.key);
    forall i, j | 0 <= i < j < |l'|
      ensures LastTouch(max, ops, l'[i].key) > LastTouch(max, ops, l'[j].key)
    {
      assert l'[j] in Without(l, e.key);
      TouchedBefore(max, ops[..|ops| - 1], l'[j].key);
      assert i > 0 ==> l'[i] in Without(l, e.key);
    }
  }

  // ----- how long FIFO keeps a value

  /** The bytes written by the operations. */
  function BytesWritten(ops: seq<Op>): nat {
    if ops == [] then 0
    else BytesWritten(ops[..|ops| - 1]) + if ops[|ops| - 1].Write? then ops[|ops| - 1].value.Len() else 0
  }

  /** A value stays readable, whatever was stored before, until the key is
      written or deleted again or the bytes written since no longer fit beside it. */
  lemma {:induction false} FifoRetains(max: int, before: seq<Op>, e: Entry, ops: seq<Op>) returns (i: nat)
    requires e.value.Len() + BytesWritten(ops) <= max
    requires forall op :: op in ops && (op.Write? || op.Delete?) ==> op.key != e.key
    ensures var q := FifoRun(max, before + [Write(e.key, e.hash, e.value)] + ops);
            i < |q| && q[i] == e && Total(q[i..]) <= e.value.Len() + BytesWritten(ops)
  {
    var w := Write(e.key, e.hash, e.value);
    var all := before + [w] + ops;
    if ops == [] {
      assert all == before + [w] && all[..|all| - 1] == before;
      FifoDistinct(max, before);
      i := NewestRetained(FifoRun(max, before), max, e);
    } else {
      var rest, op := ops[..|ops| - 1], ops[|ops| - 1];
      assert all[..|all| - 1] == before + [w] + rest;
      i := FifoRetains(max, before, e, rest);
      var q := FifoRun(max, before + [w] + rest);
      FifoDistinct(max, before + [w] + rest);
      assert op in ops;
      match op
      case Write(key, hash, value) => i := RetainedByWrite(q, max, Entry(key, hash, value), i);
      case Delete(key) => i := RetainedByRemove(q, key, i);
      case Read(_) =>
      case Promoter =>
    }
  }

  lemma NewestRetained(q: seq<Entry>, max: int, e: Entry) returns (i: nat)
    requires DistinctKeys(q) && e.value.Len() <= max
    ensures var q' := FifoWrite(q, max, e); i < |q'| && q'[i] == e && Total(q'[i..]) == e.value.Len()
  {
    var n := EvictionIsMinimal(q, max, e);
    var c := Without(q, e.key) + [e];
    assert c[|c| - 1..] == [e] && Total([e]) == e.value.Len();
    i := |c| - 1 - n;
    assert c[n..][i..] == [e];
  }

  lemma RetainedByRemove(q: seq<Entry>, key: string, i: nat) returns (j: nat)
    requires DistinctKeys(q) && i < |q| && q[i].key != key
    ensures j < |Without(q, key)| && Without(q, key)[j] == q[i] && Total(Without(q, key)[j..]) <= Total(q[i..])
  {
    var k := IndexOf(q, key);
    j := if k < i then i - 1 else i;
    if k < i {
      RemoveInFront(q, i, k);
    } else if k < |q| {
      RemoveBehind(q, i, k);
    }
  }

  lemma RemoveInFront(q: seq<Entry>, i: nat, k: nat)
    requires k < i < |q|
    ensures RemoveAt(q, k)[i - 1..] == q[i..] && RemoveAt(q, k)[i - 1] == q[i]
  {
  }

  lemma RemoveBehind(q: seq<Entry>, i: nat, k: nat)
    requires i < k < |q|
    ensures RemoveAt(q, k)[i] == q[i] && Total(RemoveAt(q, k)[i..]) <= Total(q[i..])
  {
    assert RemoveAt(q, k)[i..] == RemoveAt(q[i..], k - i);
    TotalSplit(q[i..], k - i);
  }

  lemma RetainedByWrite(q: seq<Entry>, max: int, e: Entry, i: nat) returns (j: nat)
    requires DistinctKeys(q) && i < |q| && q[i].key != e.key && Total(q[i..]) + e.value.Len() <= max
    ensures var q' := FifoWrite(q, max, e);
            j < |q'| && q'[j] == q[i] && Total(q'[j..]) <= Total(q[i..]) + e.value.Len()
  {
    var c := Without(q, e.key) + [e];
    var n := EvictionIsMinimal(q, max, e);
    j := RetainedByRemove(q, e.key, i);
    TotalConcat(Without(q, e.key)[j..], [e]);
    assert c[j..] == Without(q, e.key)[j..] + [e] && Total([e]) == e.value.Len();
    assert Total(c[j..]) <= max && j >= n;
    assert c[n..][j - n..] == c[j..];
    j := j - n;
  }
}
