/** What adding and removing a node undo of each other. */
module RingUndo {
  import opened Values
  import opened HashRing
  import opened RingTheory

  lemma FilterInsert<T>(s: seq<T>, p: nat, x: T, del: T -> bool)
    requires p <= |s| && del(x)
    ensures Filter(InsertAt(s, p, x), del) == Filter(s, del)
  {
    var front, back := s[..p], s[p..];
    KeptConcat(front + [x], back, del, |back|);
    KeptConcat(front, [x], del, 1);
    KeptConcat(front, back, del, |back|);
    assert s == front + back;
  }

  lemma {:induction false} FilterInserted(c: Config, ring: seq<VirtualNode>, name: string, k: nat)
    requires forall v :: v in ring ==> v.name != name
    ensures Filter(InsertUpTo(c, ring, name, k), HasName(name)) == ring
  {
    if k == 0 {
      FilterNothing(ring, HasName(name));
    } else {
      FilterInserted(c, ring, name, k - 1);
      var r, v := InsertUpTo(c, ring, name, k - 1), VirtualNodeOf(c, name, k - 1);
      FilterInsert(r, UpperBound(r, v.hash), v, HasName(name));
    }
  }

  /** RemoveNode undoes AddNode element for element, ties included. */
  lemma AddThenRemove(c: Config, st: RingState, name: string)
    requires WellFormed(c, st) && name !in st.nodes
    ensures Remove(Add(c, st, name), name) == st
  {
    FilterInserted(c, st.ring, name, c.Count());
    KeptConcat(st.nodes, [name], IsName(name), 1);
    FilterNothing(st.nodes, IsName(name));
  }

  /** Every entry of the node stands behind the other nodes' entries of equal hash. */
  ghost predicate LastAmongTies(ring: seq<VirtualNode>, name: string) {
    forall j, k :: 0 <= j < k < |ring| && ring[j].name == name && ring[k].name != name ==> ring[j].hash != ring[k].hash
  }

  /** Entry `a` stands somewhere before entry `b`. */
  ghost predicate Before(ring: seq<VirtualNode>, a: VirtualNode, b: VirtualNode) {
    exists i, j :: 0 <= i < j < |ring| && ring[i] == a && ring[j] == b
  }

  /** The order by hash in which `name`'s entries come last among equal hashes,
      by index, and the others keep the order they have in `rest`. */
  ghost predicate Goes(rest: seq<VirtualNode>, name: string, a: VirtualNode, b: VirtualNode) {
    a.hash < b.hash
    || (a.hash == b.hash
        && if a.name == name then b.name == name && a.index < b.index else b.name == name || Before(rest, a, b))
  }

  lemma GoesOneWay(rest: seq<VirtualNode>, name: string, a: VirtualNode, b: VirtualNode)
    requires NoDuplicates(rest) && Goes(rest, name, a, b)
    ensures !Goes(rest, name, b, a)
  {
    if i, j :| 0 <= i < j < |rest| && rest[i] == a && rest[j] == b {
      assert forall k, l :: 0 <= k < |rest| && 0 <= l < |rest| && rest[k] == a && rest[l] == b ==> k == i && l == j;
    }
  }

  lemma EntriesDistinct(c: Config, st: RingState)
    requires WellFormed(c, st)
    ensures NoDuplicates(st.ring)
  {
  }

  /** A ring with the node last among ties is in that order. */
  lemma InThatOrder(c: Config, st: RingState, name: string, rest: seq<VirtualNode>)
    requires WellFormed(c, st) && LastAmongTies(st.ring, name) && Filter(st.ring, HasName(name)) == rest
    ensures Ordered(st.ring, (a, b) => Goes(rest, name, a, b))
  {
    forall j, k | 0 <= j < k < |st.ring|
      ensures Goes(rest, name, st.ring[j], st.ring[k])
    {
      if st.ring[j].name != name && st.ring[k].name != name {
        KeptPair(st.ring, HasName(name), j, k);
      }
    }
  }

  /** Any two elements that stay keep their order. */
  lemma KeptPair(ring: seq<VirtualNode>, del: VirtualNode -> bool, j: nat, k: nat)
    requires j < k < |ring| && !del(ring[j]) && !del(ring[k])
    ensures Before(Filter(ring, del), ring[j], ring[k])
  {
    KeptIndex(ring, del, j, |ring|);
    KeptIndex(ring, del, k, |ring|);
    KeptIndex(ring, del, j, k);
  }

  /** Adding a node puts its entries last among ties. */
  lemma InsertLast(ring: seq<VirtualNode>, v: VirtualNode)
    requires Sorted(ring) && LastAmongTies(ring, v.name)
    ensures LastAmongTies(Insert(ring, v), v.name)
  {
    forall j, k | 0 <= j < k < |Insert(ring, v)|
      && Insert(ring, v)[j].name == v.name && Insert(ring, v)[k].name != v.name
      ensures Insert(ring, v)[j].hash != Insert(ring, v)[k].hash
    {
      InsertShift(ring, v, j);
      InsertShift(ring, v, k);
    }
  }

  lemma {:induction false} InsertsLast(c: Config, ring: seq<VirtualNode>, name: string, n: nat)
    requires Sorted(ring) && forall v :: v in ring ==> v.name != name
    ensures LastAmongTies(InsertUpTo(c, ring, name, n), name)
  {
    if n > 0 {
      InsertsLast(c, ring, name, n - 1);
      InsertUpToSorted(c, ring, name, n - 1);
      InsertLast(InsertUpTo(c, ring, name, n - 1), VirtualNodeOf(c, name, n - 1));
    }
  }

  lemma RemovedIsGone(st: RingState, name: string)
    ensures forall v :: v in Remove(st, name).ring ==> v.name != name
  {
    forall v | v in Remove(st, name).ring
      ensures v.name != name
    {
      FilterMembers(st.ring, HasName(name), v);
    }
  }

  /** What the node's return brings about. */
  lemma BackAgain(c: Config, st: RingState, name: string, rest: RingState)
    requires WellFormed(c, st) && name in st.nodes && rest == Remove(st, name)
    ensures WellFormed(c, rest) && WellFormed(c, Add(c, rest, name))
    ensures Elements(Add(c, rest, name).nodes) == Elements(st.nodes)
    ensures Filter(Add(c, rest, name).ring, HasName(name)) == rest.ring && LastAmongTies(Add(c, rest, name).ring, name)
  {
    RemoveWellFormed(c, st, name);
    RemovedIsGone(st, name);
    assert name !in Elements(rest.nodes);
    AddWellFormed(c, rest, name);
    AddThenRemove(c, rest, name);
    InsertsLast(c, rest.ring, name, c.Count());
    assert Elements(Add(c, rest, name).nodes) == Elements(rest.nodes) + {name};
  }

  /** AddNode undoes RemoveNode exactly if the node's entries were last among
      ties: then the ring is restored element for element. */
  lemma RemoveThenAdd(c: Config, st: RingState, name: string)
    requires WellFormed(c, st) && name in st.nodes
    ensures Add(c, Remove(st, name), name).ring == st.ring <==> LastAmongTies(st.ring, name)
    ensures Elements(Add(c, Remove(st, name), name).nodes) == Elements(st.nodes)
  {
    var rest := Remove(st, name);
    BackAgain(c, st, name, rest);
    if LastAmongTies(st.ring, name) {
      EntriesDistinct(c, rest);
      SameOrder(c, st, Add(c, rest, name), name, rest.ring);
    }
  }

  lemma SameOrder(c: Config, st: RingState, st': RingState, name: string, rest: seq<VirtualNode>)
    requires WellFormed(c, st) && WellFormed(c, st') && Elements(st.nodes) == Elements(st'.nodes)
    requires LastAmongTies(st.ring, name) && LastAmongTies(st'.ring, name) && NoDuplicates(rest)
    requires Filter(st.ring, HasName(name)) == rest == Filter(st'.ring, HasName(name))
    ensures st.ring == st'.ring
  {
    var before := (a: VirtualNode, b: VirtualNode) => Goes(rest, name, a, b);
    EntriesOfRing(c, st);
    EntriesOfRing(c, st');
    SameEntries(c, st.nodes, st'.nodes);
    InThatOrder(c, st, name, rest);
    InThatOrder(c, st', name, rest);
    forall a, b | before(a, b)
      ensures !before(b, a)
    {
      GoesOneWay(rest, name, a, b);
    }
    OrderedIsUnique(st.ring, st'.ring, before);
  }

  /** In particular, if no entries of different nodes collide. */
  lemma NoCollisionNoTies(c: Config, st: RingState, name: string)
    requires WellFormed(c, st) && NoCollision(c, Elements(st.nodes))
    ensures LastAmongTies(st.ring, name)
  {
    forall j, k | 0 <= j < k < |st.ring| && st.ring[j].name != st.ring[k].name
      ensures st.ring[j].hash != st.ring[k].hash
    {
      var a, b := st.ring[j], st.ring[k];
      assert a == VirtualNodeOf(c, a.name, a.index) && b == VirtualNodeOf(c, b.name, b.index);
      assert a.name in Elements(st.nodes) && b.name in Elements(st.nodes);
    }
  }
}
