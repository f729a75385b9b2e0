/** What the ring promises: who owns a hash, what an added or removed node
    changes, and that the order of events does not matter. */
module RingTheory {
  import opened Values
  import opened HashRing

  // ----- ownership is nearness

  lemma OwnerIsNearest(ring: seq<VirtualNode>, h: Hash, k: int)
    requires Sorted(ring) && ring != []
    ensures Nearest(ring, h, k) <==> k == OwnerIndex(ring, h)
  {
    var p := OwnerIndex(ring, h);
    forall j | 0 <= j < |ring| && j != p
      ensures Beats(h, ring[p].hash, p, ring[j].hash, j)
    {
      if j < p {
        assert ring[j].hash <= ring[p].hash;
      } else {
        assert ring[j].hash >= ring[p].hash;
      }
    }
    assert Nearest(ring, h, p);
  }

  /** Where the entries are once `v` is in the ring. */
  lemma InsertShift(ring: seq<VirtualNode>, v: VirtualNode, j: nat)
    requires Sorted(ring) && j <= |ring|
    ensures var p := UpperBound(ring, v.hash); var ring' := Insert(ring, v);
            && |ring'| == |ring| + 1
            && (if j < p then ring'[j] == ring[j] && ring[j].hash <= v.hash
                else if j == p then ring'[j] == v
                else ring'[j] == ring[j - 1] && ring[j - 1].hash > v.hash)
  {
    var p := UpperBound(ring, v.hash);
    if j < p {
      assert ring[j].hash <= ring[p - 1].hash;
    }
  }

  /** What is nearest once `v` is in the ring. */
  lemma InsertNearest(ring: seq<VirtualNode>, v: VirtualNode, h: Hash, k: nat) returns (k': nat)
    requires Sorted(ring) && Nearest(ring, h, k)
    ensures Nearest(Insert(ring, v), h, k')
    ensures Insert(ring, v)[k'] == if Distance(h, v.hash) <= Distance(h, ring[k].hash) then v else ring[k]
  {
    var p, ring' := UpperBound(ring, v.hash), Insert(ring, v);
    k' := if Distance(h, v.hash) <= Distance(h, ring[k].hash) then p else if k < p then k else k + 1;
    InsertShift(ring, v, k');
    forall j | 0 <= j < |ring'| && j != k'
      ensures Beats(h, ring'[k'].hash, k', ring'[j].hash, j)
    {
      InsertShift(ring, v, j);
      assert j == p || (var i := if j < p then j else j - 1; i == k || Beats(h, ring[k].hash, k, ring[i].hash, i));
    }
  }

  /** Inserting one entry: it takes over exactly the hashes to which it is at
      least as near as the nearest entry so far. */
  lemma InsertOwner(ring: seq<VirtualNode>, v: VirtualNode, h: Hash)
    requires Sorted(ring)
    ensures Sorted(Insert(ring, v)) && Insert(ring, v) != []
    ensures Overtakes(ring, h, v.name, Distance(h, v.hash), Insert(ring, v))
  {
    InsertKeepsSorted(ring, v);
    if ring == [] {
      assert Insert(ring, v) == [v];
    } else {
      var k := OwnerIndex(ring, h);
      OwnerIsNearest(ring, h, k);
      var k' := InsertNearest(ring, v, h, k);
      OwnerIsNearest(Insert(ring, v), h, k');
    }
  }

  lemma InsertKeepsSorted(ring: seq<VirtualNode>, v: VirtualNode)
    requires Sorted(ring)
    ensures Sorted(Insert(ring, v))
  {
    var p := UpperBound(ring, v.hash);
    forall i | 0 <= i < p
      ensures ring[i].hash <= v.hash
    {
      assert ring[i].hash <= ring[p - 1].hash;
    }
  }

  lemma {:induction false} InsertUpToSorted(c: Config, ring: seq<VirtualNode>, name: string, k: nat)
    requires Sorted(ring)
    ensures Sorted(InsertUpTo(c, ring, name, k))
  {
    if k > 0 {
      InsertUpToSorted(c, ring, name, k - 1);
      InsertKeepsSorted(InsertUpTo(c, ring, name, k - 1), VirtualNodeOf(c, name, k - 1));
    }
  }

  /** `name` took over the hash if within distance `d`, and nothing changed otherwise. */
  ghost predicate Overtakes(ring: seq<VirtualNode>, h: Hash, name: string, d: nat, ring': seq<VirtualNode>) {
    if d <= RingDistance(ring, h)
    then Owner(ring', h) == name && RingDistance(ring', h) == d
    else Owner(ring', h) == Owner(ring, h) && RingDistance(ring', h) == RingDistance(ring, h)
  }

  lemma {:induction false} InsertUpToOwner(c: Config, ring: seq<VirtualNode>, name: string, h: Hash, k: nat)
    requires Sorted(ring)
    ensures Sorted(InsertUpTo(c, ring, name, k))
    ensures k > 0 ==> Overtakes(ring, h, name, NodeDistance(c, name, h, k), InsertUpTo(c, ring, name, k))
  {
    if k > 0 {
      InsertUpToOwner(c, ring, name, h, k - 1);
      InsertOwner(InsertUpTo(c, ring, name, k - 1), VirtualNodeOf(c, name, k - 1), h);
      assert k == 1 ==> InsertUpTo(c, ring, name, k - 1) == ring && NodeDistance(c, name, h, k - 1) == MODULUS;
    }
  }

  /** Minimal disruption of AddNode, ties included: a hash moves to the new
      node exactly when that node is at least as near as the old owner's
      virtual node, and keeps its owner otherwise. */
  lemma AddMovesOnlyToTheNewNode(c: Config, st: RingState, name: string, h: Hash)
    requires Sorted(st.ring)
    ensures var st' := Add(c, st, name);
            Owner(st'.ring, h) ==
            if c.Count() > 0 && Rank(c, name, h) <= RingDistance(st.ring, h) then name else Owner(st.ring, h)
  {
    InsertUpToOwner(c, st.ring, name, h, c.Count());
  }

  // ----- filtering, as slices.DeleteFunc does

  lemma {:induction false} KeptMembers<T>(s: seq<T>, del: T -> bool, n: nat, x: T)
    requires n <= |s|
    ensures x in Kept(s, del, n) <==> x in s[..n] && !del(x)
  {
    if n > 0 {
      KeptMembers(s, del, n - 1, x);
      assert s[..n] == s[..n - 1] + [s[n - 1]];
    }
  }

  lemma FilterMembers<T>(s: seq<T>, del: T -> bool, x: T)
    ensures x in Filter(s, del) <==> x in s && !del(x)
  {
    KeptMembers(s, del, |s|, x);
    assert s[..|s|] == s;
  }

  lemma {:induction false} KeptConcat<T>(s: seq<T>, t: seq<T>, del: T -> bool, n: nat)
    requires n <= |t|
    ensures Kept(s + t, del, |s| + n) == Kept(s, del, |s|) + Kept(t, del, n)
  {
    if n == 0 {
      KeptPrefix(s + t, s, del, |s|);
    } else {
      KeptConcat(s, t, del, n - 1);
      assert (s + t)[|s| + n - 1] == t[n - 1];
    }
  }

  lemma {:induction false} KeptPrefix<T>(s: seq<T>, t: seq<T>, del: T -> bool, n: nat)
    requires n <= |s| && n <= |t|
    requires forall i :: 0 <= i < n ==> s[i] == t[i]
    ensures Kept(s, del, n) == Kept(t, del, n)
  {
    if n > 0 {
      KeptPrefix(s, t, del, n - 1);
    }
  }

  lemma {:induction false} KeptAll<T>(s: seq<T>, del: T -> bool, n: nat)
    requires n <= |s| && forall i :: 0 <= i < n ==> !del(s[i])
    ensures Kept(s, del, n) == s[..n]
  {
    if n > 0 {
      KeptAll(s, del, n - 1);
      assert s[..n] == s[..n - 1] + [s[n - 1]];
    }
  }

  lemma FilterNothing<T>(s: seq<T>, del: T -> bool)
    requires forall x :: x in s ==> !del(x)
    ensures Filter(s, del) == s
  {
    KeptAll(s, del, |s|);
    assert s[..|s|] == s;
  }

  /** Element `k`, if kept, ends up behind exactly the kept ones before it. */
  lemma {:induction false} KeptIndex<T>(s: seq<T>, del: T -> bool, k: nat, n: nat)
    requires k < n <= |s| && !del(s[k])
    ensures var i := |Kept(s, del, k)|; i < |Kept(s, del, n)| && Kept(s, del, n)[i] == s[k]
  {
    if k < n - 1 {
      KeptIndex(s, del, k, n - 1);
    }
  }

  lemma {:induction false} KeptOrigin<T>(s: seq<T>, del: T -> bool, i: nat, n: nat) returns (k: nat)
    requires n <= |s| && i < |Kept(s, del, n)|
    ensures k < n && !del(s[k]) && s[k] == Kept(s, del, n)[i] && i == |Kept(s, del, k)|
  {
    if i < |Kept(s, del, n - 1)| {
      k := KeptOrigin(s, del, i, n - 1);
    } else {
      k := n - 1;
    }
  }

  /** Any two elements that are kept stay in order. */
  lemma FilterPair<T>(s: seq<T>, del: T -> bool, i: nat, j: nat) returns (k: nat, l: nat)
    requires i < j < |Filter(s, del)|
    ensures k < l < |s| && s[k] == Filter(s, del)[i] && s[l] == Filter(s, del)[j]
  {
    k := KeptOrigin(s, del, i, |s|);
    l := KeptOrigin(s, del, j, |s|);
    if l < k {
      KeptIndex(s, del, l, k);
    }
  }

  // ----- the representation invariant

  lemma InsertRepresents(
      c: Config, ring: seq<VirtualNode>, quota: map<string, nat>, v: VirtualNode,
      ring': seq<VirtualNode>, quota': map<string, nat>)
    requires Represents(c, ring, quota)
    requires v.name in quota && v == VirtualNodeOf(c, v.name, quota[v.name])
    requires ring' == Insert(ring, v) && quota' == quota[v.name := v.index + 1]
    ensures Represents(c, ring', quota')
  {
    var p := UpperBound(ring, v.hash);
    InsertKeepsSorted(ring, v);
    forall k | 0 <= k < |ring'|
      ensures ring'[k].name in quota' && ring'[k].index < quota'[ring'[k].name]
      ensures ring'[k] == VirtualNodeOf(c, ring'[k].name, ring'[k].index)
    {
      InsertShift(ring, v, k);
    }
    forall n, i: nat | n in quota' && i < quota'[n]
      ensures VirtualNodeOf(c, n, i) in ring'
    {
      if n == v.name && i == v.index {
        assert ring'[p] == v;
      } else {
        assert VirtualNodeOf(c, n, i) in ring[..p] || VirtualNodeOf(c, n, i) in ring[p..];
      }
    }
    forall j, k | 0 <= j < k < |ring'| && ring'[j].name == ring'[k].name && ring'[j].hash == ring'[k].hash
      ensures ring'[j].index < ring'[k].index
    {
      InsertShift(ring, v, j);
      InsertShift(ring, v, k);
    }
  }

  lemma AddQuota(c: Config, ring: seq<VirtualNode>, quota: map<string, nat>, name: string)
    requires Represents(c, ring, quota) && name !in quota
    ensures Represents(c, ring, quota[name := 0])
  {
  }

  lemma NextRepresents(
      c: Config, ring: seq<VirtualNode>, quota: map<string, nat>, name: string, i: nat, quota': map<string, nat>)
    requires Represents(c, ring, quota) && name in quota && quota[name] == i && quota' == quota[name := i + 1]
    ensures Represents(c, Insert(ring, VirtualNodeOf(c, name, i)), quota')
  {
    InsertRepresents(c, ring, quota, VirtualNodeOf(c, name, i), Insert(ring, VirtualNodeOf(c, name, i)), quota');
  }

  /** What every single insertion keeps, all together keep. */
  lemma {:induction false} InsertionsKeep(
      c: Config, ring: seq<VirtualNode>, name: string, k: nat, inv: (nat, seq<VirtualNode>) -> bool)
    requires inv(0, ring)
    requires forall i: nat, r :: inv(i, r) ==> inv(i + 1, Insert(r, VirtualNodeOf(c, name, i)))
    ensures inv(k, InsertUpTo(c, ring, name, k))
  {
    if k > 0 {
      InsertionsKeep(c, ring, name, k - 1, inv);
    }
  }

  lemma InsertUpToRepresents(c: Config, ring: seq<VirtualNode>, quota: map<string, nat>, name: string, k: nat)
    requires Represents(c, ring, quota) && name !in quota
    ensures Represents(c, InsertUpTo(c, ring, name, k), quota[name := k])
  {
    var inv := (i: nat, r: seq<VirtualNode>) => Represents(c, r, quota[name := i]);
    AddQuota(c, ring, quota, name);
    forall i: nat, r | inv(i, r)
      ensures inv(i + 1, Insert(r, VirtualNodeOf(c, name, i)))
    {
      NextRepresents(c, r, quota[name := i], name, i, quota[name := i + 1]);
    }
    InsertionsKeep(c, ring, name, k, inv);
  }

  lemma AddWellFormed(c: Config, st: RingState, name: string)
    requires WellFormed(c, st) && name !in st.nodes
    ensures WellFormed(c, Add(c, st, name))
  {
    var quota := Quota(st.nodes, c.Count());
    InsertUpToRepresents(c, st.ring, quota, name, c.Count());
    assert quota[name := c.Count()] == Quota(st.nodes + [name], c.Count());
  }

  lemma RemoveWellFormed(c: Config, st: RingState, name: string)
    requires WellFormed(c, st)
    ensures WellFormed(c, Remove(st, name))
    ensures Elements(Remove(st, name).nodes) == Elements(st.nodes) - {name}
  {
    var st' := Remove(st, name);
    forall n
      ensures n in st'.nodes <==> n in st.nodes && n != name
    {
      FilterMembers(st.nodes, IsName(name), n);
    }
    forall i, j | 0 <= i < j < |st'.nodes|
      ensures st'.nodes[i] != st'.nodes[j]
    {
      var k, l := FilterPair(st.nodes, IsName(name), i, j);
    }
    forall v
      ensures v in st'.ring <==> v in st.ring && v.name != name
    {
      FilterMembers(st.ring, HasName(name), v);
    }
    forall i, j | 0 <= i < j < |st'.ring|
      ensures st'.ring[i].hash <= st'.ring[j].hash
      ensures st'.ring[i].name == st'.ring[j].name && st'.ring[i].hash == st'.ring[j].hash ==>
                st'.ring[i].index < st'.ring[j].index
    {
      var k, l := FilterPair(st.ring, HasName(name), i, j);
    }
    forall k | 0 <= k < |st'.ring|
      ensures st'.ring[k] in st.ring && st'.ring[k].name != name
    {
      assert st'.ring[k] in st'.ring;
    }
  }

  /** All that is gone with a node is the node and its entries. */
  lemma RemovedEntries(st: RingState, name: string)
    ensures forall n :: n in Remove(st, name).nodes <==> n in st.nodes && n != name
    ensures forall v :: v in Remove(st, name).ring <==> v in st.ring && v.name != name
  {
    forall n
      ensures n in Remove(st, name).nodes <==> n in st.nodes && n != name
    {
      FilterMembers(st.nodes, IsName(name), n);
    }
    forall v
      ensures v in Remove(st, name).ring <==> v in st.ring && v.name != name
    {
      FilterMembers(st.ring, HasName(name), v);
    }
  }

  // ----- runs of AddNode and RemoveNode

  datatype Event = Joined(name: string) | Left(name: string)

  /** A call that panics (a duplicate, or an unknown node) changes nothing. */
  function Update(c: Config, st: RingState, e: Event): RingState {
    match e
    case Joined(name) => if name in st.nodes then st else Add(c, st, name)
    case Left(name) => if name in st.nodes then Remove(st, name) else st
  }

  function Replay(c: Config, events: seq<Event>): RingState {
    if events == [] then EMPTY
    else Update(c, Replay(c, events[..|events| - 1]), events[|events| - 1])
  }

  /** After any calls, the ring is sorted and holds exactly one entry for each
      listed node and index: virtualNodes * |nodes| in all. */
  lemma {:induction false} ReplayWellFormed(c: Config, events: seq<Event>)
    ensures WellFormed(c, Replay(c, events))
    ensures |Replay(c, events).ring| == c.Count() * |Replay(c, events).nodes|
  {
    if events != [] {
      var rest, e := events[..|events| - 1], events[|events| - 1];
      ReplayWellFormed(c, rest);
      if e.name !in Replay(c, rest).nodes {
        AddWellFormed(c, Replay(c, rest), e.name);
      } else {
        RemoveWellFormed(c, Replay(c, rest), e.name);
      }
    }
    RingLength(c, Replay(c, events));
  }

  ghost function NodeEntries(c: Config, name: string, k: nat): (s: set<VirtualNode>)
    ensures |s| == k
    ensures forall v :: v in s <==> v.name == name && v.index < k && v == VirtualNodeOf(c, name, v.index)
  {
    if k == 0 then {} else NodeEntries(c, name, k - 1) + {VirtualNodeOf(c, name, k - 1)}
  }

  ghost function AllEntries(c: Config, names: seq<string>): (s: set<VirtualNode>)
    ensures forall v :: v in s <==>
              v.name in names && v.index < c.Count() && v == VirtualNodeOf(c, v.name, v.index)
  {
    if names == [] then {}
    else AllEntries(c, names[..|names| - 1]) + NodeEntries(c, names[|names| - 1], c.Count())
  }

  lemma Distribute(n: nat, k: nat)
    ensures n * (k + 1) == n * k + n
  {
  }

  lemma {:induction false} AllEntriesCount(c: Config, names: seq<string>)
    requires NoDuplicates(names)
    ensures |AllEntries(c, names)| == c.Count() * |names|
  {
    if names != [] {
      var front, n := names[..|names| - 1], names[|names| - 1];
      AllEntriesCount(c, front);
      assert n !in front;
      assert AllEntries(c, front) !! NodeEntries(c, n, c.Count());
      Distribute(c.Count(), |front|);
    }
  }

  lemma EntriesOfRing(c: Config, st: RingState)
    requires WellFormed(c, st)
    ensures Elements(st.ring) == AllEntries(c, st.nodes)
  {
  }

  lemma SameEntries(c: Config, names: seq<string>, names': seq<string>)
    requires Elements(names) == Elements(names')
    ensures AllEntries(c, names) == AllEntries(c, names')
  {
    assert forall n :: n in names <==> n in Elements(names);
    assert forall n :: n in names' <==> n in Elements(names');
  }

  lemma RingLength(c: Config, st: RingState)
    requires WellFormed(c, st)
    ensures |st.ring| == c.Count() * |st.nodes|
  {
    DistinctCardinality(st.ring);
    EntriesOfRing(c, st);
    AllEntriesCount(c, st.nodes);
  }

  /** Place `k` holds the virtual node of this name and index, where it belongs on the circle. */
  ghost predicate EntryAt(c: Config, ring: seq<VirtualNode>, k: nat, name: string, i: nat) {
    k < |ring| && ring[k].name == name && ring[k].index == i && ring[k].hash == c.position(name, i)
  }

  lemma EntryOf(c: Config, st: RingState, name: string, i: nat) returns (k: nat)
    requires WellFormed(c, st) && name in st.nodes && i < c.virtualNodes
    ensures EntryAt(c, st.ring, k, name, i)
    ensures forall j: nat :: EntryAt(c, st.ring, j, name, i) ==> j == k
  {
    assert VirtualNodeOf(c, name, i) in st.ring;
    k :| 0 <= k < |st.ring| && st.ring[k] == VirtualNodeOf(c, name, i);
  }

  /** The entries after any calls: for each listed node, exactly one for each index
      below the number of virtual nodes the ring was made with, and no others. */
  lemma EveryVirtualNodeOnce(c: Config, events: seq<Event>, name: string, i: nat)
    ensures var st := Replay(c, events);
            && |st.ring| == (if c.virtualNodes > 0 then c.virtualNodes else 0) * |st.nodes|
            && (if name in st.nodes && i < c.virtualNodes
                then exists k: nat :: EntryAt(c, st.ring, k, name, i)
                       && forall j: nat :: EntryAt(c, st.ring, j, name, i) ==> j == k
                else forall k :: 0 <= k < |st.ring| ==> st.ring[k].name != name || st.ring[k].index != i)
  {
    var st := Replay(c, events);
    ReplayWellFormed(c, events);
    if name in st.nodes && i < c.virtualNodes {
      var k := EntryOf(c, st, name, i);
    }
  }

  /** A new node's entries join those there were. */
  lemma AddedEntries(c: Config, st: RingState, name: string)
    requires WellFormed(c, st) && name !in st.nodes
    ensures |Add(c, st, name).ring| == |st.ring| + if c.virtualNodes > 0 then c.virtualNodes else 0
    ensures forall v :: v in Add(c, st, name).ring <==>
              v in st.ring || (v.name == name && v.index < c.virtualNodes && v.hash == c.position(name, v.index))
  {
    AddWellFormed(c, st, name);
    RingLength(c, st);
    RingLength(c, Add(c, st, name));
    Distribute(c.Count(), |st.nodes|);
    SameMembers(c, st, Add(c, st, name), name);
  }

  lemma SameMembers(c: Config, st: RingState, st': RingState, name: string)
    requires WellFormed(c, st) && WellFormed(c, st') && st'.nodes == st.nodes + [name]
    ensures forall v :: v in st'.ring <==>
              v in st.ring || (v.name == name && v.index < c.virtualNodes && v.hash == c.position(name, v.index))
  {
    EntriesOfRing(c, st);
    EntriesOfRing(c, st');
    forall v
      ensures v in st'.ring <==> v in AllEntries(c, st.nodes + [name])
      ensures v in st.ring <==> v in AllEntries(c, st.nodes)
    {
      assert v in st'.ring <==> v in Elements(st'.ring);
      assert v in st.ring <==> v in Elements(st.ring);
    }
  }

  // ----- ownership by rank

  lemma {:induction false} NodeDistanceIsMinimum(c: Config, name: string, h: Hash, k: nat)
    ensures forall i: nat :: i < k ==> NodeDistance(c, name, h, k) <= Distance(h, VirtualNodeOf(c, name, i).hash)
    ensures k > 0 ==>
              exists i: nat :: i < k && NodeDistance(c, name, h, k) == Distance(h, VirtualNodeOf(c, name, i).hash)
  {
    if k > 0 {
      NodeDistanceIsMinimum(c, name, h, k - 1);
      assert Distance(h, VirtualNodeOf(c, name, k - 1).hash) < MODULUS;
    }
  }

  /** The owner is a listed node of the smallest rank. */
  lemma OwnerHasLeastRank(c: Config, st: RingState, h: Hash)
    requires WellFormed(c, st) && c.Count() > 0 && st.nodes != []
    ensures Owner(st.ring, h) in st.nodes
    ensures forall m :: m in st.nodes ==> Rank(c, Owner(st.ring, h), h) <= Rank(c, m, h)
  {
    var n := st.nodes[0];
    assert VirtualNodeOf(c, n, 0) in st.ring;
    var k := OwnerIndex(st.ring, h);
    OwnerIsNearest(st.ring, h, k);
    var o := st.ring[k];
    NodeDistanceIsMinimum(c, o.name, h, c.Count());
    assert o == VirtualNodeOf(c, o.name, o.index);
    forall m | m in st.nodes
      ensures Rank(c, o.name, h) <= Rank(c, m, h)
    {
      var j := RankAttained(c, st, h, m);
    }
  }

  lemma RankAttained(c: Config, st: RingState, h: Hash, m: string) returns (j: nat)
    requires WellFormed(c, st) && c.Count() > 0 && m in st.nodes
    ensures j < |st.ring| && Rank(c, m, h) == Distance(h, st.ring[j].hash)
  {
    NodeDistanceIsMinimum(c, m, h, c.Count());
    var i: nat :| i < c.Count() && Rank(c, m, h) == Distance(h, VirtualNodeOf(c, m, i).hash);
    assert VirtualNodeOf(c, m, i) in st.ring;
    j :| 0 <= j < |st.ring| && st.ring[j] == VirtualNodeOf(c, m, i);
  }

  /** The owner is as far away as its rank says. */
  lemma OwnerDistance(c: Config, st: RingState, h: Hash)
    requires WellFormed(c, st) && c.Count() > 0 && st.nodes != []
    ensures Owner(st.ring, h) in st.nodes && RingDistance(st.ring, h) == Rank(c, Owner(st.ring, h), h)
  {
    OwnerHasLeastRank(c, st, h);
    var o := Owner(st.ring, h);
    var j := RankAttained(c, st, h, o);
    var k := OwnerIndex(st.ring, h);
    OwnerIsNearest(st.ring, h, k);
    NodeDistanceIsMinimum(c, o, h, c.Count());
    assert st.ring[k] == VirtualNodeOf(c, o, st.ring[k].index);
  }

  /** With one nearest node, that is the owner. */
  lemma OwnerCharacterised(c: Config, st: RingState, h: Hash, n: string)
    requires WellFormed(c, st) && c.Count() > 0 && st.nodes != []
    requires OneNearest(c, Elements(st.nodes), h)
    ensures Owner(st.ring, h) == n <==> n in st.nodes && forall m :: m in st.nodes ==> Rank(c, n, h) <= Rank(c, m, h)
  {
    OwnerIsNearestIn(c, st, h);
    if n in st.nodes && forall m :: m in st.nodes ==> Rank(c, n, h) <= Rank(c, m, h) {
      assert NearestIn(c, Elements(st.nodes), h, n);
    }
  }

  lemma OwnerIsNearestIn(c: Config, st: RingState, h: Hash)
    requires WellFormed(c, st) && c.Count() > 0 && st.nodes != []
    ensures NearestIn(c, Elements(st.nodes), h, Owner(st.ring, h))
  {
    OwnerHasLeastRank(c, st, h);
  }

  /** Losing other nodes does not take a hash from its owner. */
  lemma SubsetMonotone(c: Config, st: RingState, sub: RingState, h: Hash)
    requires WellFormed(c, st) && WellFormed(c, sub) && Elements(sub.nodes) <= Elements(st.nodes)
    requires OneNearest(c, Elements(st.nodes), h) && Owner(st.ring, h) in sub.nodes
    ensures Owner(sub.ring, h) == Owner(st.ring, h)
  {
    if c.Count() == 0 {
      RingLength(c, st);
      RingLength(c, sub);
    } else {
      assert Owner(st.ring, h) in Elements(sub.nodes);
      OwnerIsNearestIn(c, st, h);
      OwnerIsNearestIn(c, sub, h);
      assert NearestIn(c, Elements(st.nodes), h, Owner(sub.ring, h));
    }
  }

  lemma DistanceInjective(h: Hash, x: Hash, y: Hash)
    ensures Distance(h, x) == Distance(h, y) <==> x == y
  {
  }

  /** Ranks tie at some hash exactly when virtual nodes of different nodes collide. */
  lemma TieFreeIffNoCollision(c: Config, names: set<string>)
    requires c.Count() > 0
    ensures NoCollision(c, names) <==> forall h :: TieFreeAt(c, names, h)
  {
    forall h, a, b | NoCollision(c, names) && a in names && b in names && a != b
      ensures Rank(c, a, h) != Rank(c, b, h)
    {
      NodeDistanceIsMinimum(c, a, h, c.Count());
      NodeDistanceIsMinimum(c, b, h, c.Count());
      var i: nat :| i < c.Count() && Rank(c, a, h) == Distance(h, VirtualNodeOf(c, a, i).hash);
      var j: nat :| j < c.Count() && Rank(c, b, h) == Distance(h, VirtualNodeOf(c, b, j).hash);
      DistanceInjective(h, VirtualNodeOf(c, a, i).hash, VirtualNodeOf(c, b, j).hash);
    }
    forall a, b, i: nat, j: nat
      | (forall h :: TieFreeAt(c, names, h)) && a in names && b in names && a != b && i < c.Count() && j < c.Count()
      ensures VirtualNodeOf(c, a, i).hash != VirtualNodeOf(c, b, j).hash
    {
      var h := VirtualNodeOf(c, a, i).hash;
      NodeDistanceIsMinimum(c, a, h, c.Count());
      NodeDistanceIsMinimum(c, b, h, c.Count());
      assert TieFreeAt(c, names, h);
    }
  }

  // ----- the order of events

  ghost predicate Precedes(a: VirtualNode, b: VirtualNode) {
    a.hash < b.hash || (a.hash == b.hash && a.index < b.index)
  }

  ghost predicate Ordered(ring: seq<VirtualNode>, before: (VirtualNode, VirtualNode) -> bool) {
    forall j, k :: 0 <= j < k < |ring| ==> before(ring[j], ring[k])
  }

  /** There is only one way to put entries into a strict order. */
  lemma {:induction false} OrderedIsUnique(
      s: seq<VirtualNode>, t: seq<VirtualNode>, before: (VirtualNode, VirtualNode) -> bool)
    requires Ordered(s, before) && Ordered(t, before) && Elements(s) == Elements(t)
    requires forall x, y :: before(x, y) ==> !before(y, x)
    ensures s == t
  {
    DistinctCardinality(s);
    DistinctCardinality(t);
    if s != [] {
      var a, b := s[|s| - 1], t[|t| - 1];
      assert a in Elements(t) && b in Elements(s);
      var j :| 0 <= j < |t| && t[j] == a;
      var k :| 0 <= k < |s| && s[k] == b;
      assert a == b;
      assert Elements(s[..|s| - 1]) == Elements(s) - {a};
      assert Elements(t[..|t| - 1]) == Elements(t) - {b};
      OrderedIsUnique(s[..|s| - 1], t[..|t| - 1], before);
    }
  }

  lemma RingIsStrictlyOrdered(c: Config, st: RingState)
    requires WellFormed(c, st) && NoCollision(c, Elements(st.nodes))
    ensures Ordered(st.ring, Precedes)
  {
    forall j, k | 0 <= j < k < |st.ring|
      ensures Precedes(st.ring[j], st.ring[k])
    {
      var a, b := st.ring[j], st.ring[k];
      assert a == VirtualNodeOf(c, a.name, a.index) && b == VirtualNodeOf(c, b.name, b.index);
      assert a.name in Elements(st.nodes) && b.name in Elements(st.nodes);
    }
  }

  /** Without collisions, the ring is a function of the set of nodes alone. */
  lemma CanonicalRing(c: Config, st: RingState, st': RingState)
    requires WellFormed(c, st) && WellFormed(c, st') && Elements(st.nodes) == Elements(st'.nodes)
    requires NoCollision(c, Elements(st.nodes))
    ensures st.ring == st'.ring
  {
    EntriesOfRing(c, st);
    EntriesOfRing(c, st');
    SameEntries(c, st.nodes, st'.nodes);
    RingIsStrictlyOrdered(c, st);
    RingIsStrictlyOrdered(c, st');
    OrderedIsUnique(st.ring, st'.ring, Precedes);
  }

  /** Whatever the events were and in whatever order they came, rings that
      list the same nodes are the same ring. */
  lemma OrderIndependence(c: Config, events: seq<Event>, events': seq<Event>)
    requires Elements(Replay(c, events).nodes) == Elements(Replay(c, events').nodes)
    requires NoCollision(c, Elements(Replay(c, events).nodes))
    ensures Replay(c, events).ring == Replay(c, events').ring
  {
    ReplayWellFormed(c, events);
    ReplayWellFormed(c, events');
    CanonicalRing(c, Replay(c, events), Replay(c, events'));
  }

  /** Collisions are all that can make the order matter: two nodes give every
      hash the same owner in either order exactly when they do not collide. */
  lemma OrderMattersIffCollision(c: Config, a: string, b: string)
    requires a != b
    ensures var ab, ba := Replay(c, [Joined(a), Joined(b)]).ring, Replay(c, [Joined(b), Joined(a)]).ring;
            (forall h :: Owner(ab, h) == Owner(ba, h)) <==> NoCollision(c, {a, b})
  {
    ReplayPair(c, a, b);
    ReplayPair(c, b, a);
    if NoCollision(c, {a, b}) {
      assert Elements([a, b]) == {a, b} == Elements([b, a]);
      OrderIndependence(c, [Joined(a), Joined(b)], [Joined(b), Joined(a)]);
    } else if c.Count() > 0 {
      TieFreeIffNoCollision(c, {a, b});
      var h :| !TieFreeAt(c, {a, b}, h);
      assert Rank(c, a, h) == Rank(c, b, h);
      LaterNodeWinsTie(c, a, b, h);
      LaterNodeWinsTie(c, b, a, h);
    }
  }

  lemma ReplayPair(c: Config, a: string, b: string)
    requires a != b
    ensures Replay(c, [Joined(a), Joined(b)]) == Add(c, Add(c, EMPTY, a), b)
    ensures Replay(c, [Joined(a), Joined(b)]).nodes == [a, b]
  {
    var ab := [Joined(a), Joined(b)];
    assert ab[..1] == [Joined(a)] && ab[..1][..0] == [];
    assert Replay(c, ab[..1]) == Add(c, EMPTY, a);
  }

  /** Of two nodes at the same rank, the one added later owns the hash. */
  lemma LaterNodeWinsTie(c: Config, a: string, b: string, h: Hash)
    requires c.Count() > 0 && Rank(c, b, h) <= Rank(c, a, h)
    ensures Owner(Add(c, Add(c, EMPTY, a), b).ring, h) == b
  {
    InsertUpToSorted(c, [], a, c.Count());
    InsertUpToOwner(c, [], a, h, c.Count());
    InsertUpToOwner(c, Add(c, EMPTY, a).ring, b, h, c.Count());
    NodeDistanceIsMinimum(c, a, h, c.Count());
  }

  /** At a tie, who owns the hash depends on more than which nodes there are. */
  lemma TiedOwnersDiffer(c: Config, a: string, b: string, h: Hash)
    requires a != b && c.Count() > 0 && Rank(c, a, h) == Rank(c, b, h)
    ensures var st, st' := Add(c, Add(c, EMPTY, a), b), Add(c, Add(c, EMPTY, b), a);
            && WellFormed(c, st) && WellFormed(c, st') && Elements(st.nodes) == Elements(st'.nodes) == {a, b}
            && Owner(st.ring, h) == b && Owner(st'.ring, h) == a
  {
    LaterOwns(c, a, b, h, Add(c, Add(c, EMPTY, a), b));
    LaterOwns(c, b, a, h, Add(c, Add(c, EMPTY, b), a));
  }

  /** Whoever builds a ring over these nodes finds the same owner. */
  ghost predicate OwnersAgree(c: Config, names: set<string>, h: Hash) {
    forall st, st' :: WellFormed(c, st) && WellFormed(c, st') && Elements(st.nodes) == names == Elements(st'.nodes) ==>
      Owner(st.ring, h) == Owner(st'.ring, h)
  }

  /** Exactly a tie between nearest nodes lets rings over the same nodes differ on an owner. */
  lemma OwnersAgreeIff(c: Config, names: set<string>, h: Hash)
    requires c.Count() > 0
    ensures OwnersAgree(c, names, h) <==> OneNearest(c, names, h)
  {
    if OneNearest(c, names, h) {
      forall st, st' | WellFormed(c, st) && WellFormed(c, st') && Elements(st.nodes) == names == Elements(st'.nodes)
        ensures Owner(st.ring, h) == Owner(st'.ring, h)
      {
        SameOwner(c, st, st', h);
      }
    } else {
      var x, y :| NearestIn(c, names, h, x) && NearestIn(c, names, h, y) && x != y;
      var st := OwnedByLast(c, names, h, x);
      var st' := OwnedByLast(c, names, h, y);
      assert Owner(st.ring, h) != Owner(st'.ring, h);
    }
  }

  lemma SameOwner(c: Config, st: RingState, st': RingState, h: Hash)
    requires WellFormed(c, st) && WellFormed(c, st') && Elements(st.nodes) == Elements(st'.nodes) && c.Count() > 0
    requires OneNearest(c, Elements(st.nodes), h)
    ensures Owner(st.ring, h) == Owner(st'.ring, h)
  {
    if st.nodes == [] {
      assert forall n :: n in st'.nodes ==> n in Elements(st'.nodes);
      RingLength(c, st);
      RingLength(c, st');
    } else {
      OwnerIsNearestIn(c, st, h);
      assert Owner(st.ring, h) in Elements(st'.nodes);
      SubsetMonotone(c, st, st', h);
    }
  }

  lemma {:induction false} RingOver(c: Config, names: set<string>) returns (st: RingState)
    ensures WellFormed(c, st) && Elements(st.nodes) == names
  {
    st := EMPTY;
    if n :| n in names {
      var rest := RingOver(c, names - {n});
      assert n !in Elements(rest.nodes);
      AddWellFormed(c, rest, n);
      st := Add(c, rest, n);
      assert Elements(rest.nodes + [n]) == Elements(rest.nodes) + {n};
    }
  }

  lemma JoinedLast(c: Config, names: set<string>, rest: RingState, n: string)
    requires WellFormed(c, rest) && n in names && Elements(rest.nodes) == names - {n}
    ensures n !in rest.nodes && WellFormed(c, Add(c, rest, n)) && Elements(Add(c, rest, n).nodes) == names
  {
    assert n !in Elements(rest.nodes) && Elements(rest.nodes + [n]) == Elements(rest.nodes) + {n};
    AddWellFormed(c, rest, n);
  }

  /** A ring that a nearest node has joined last. */
  lemma OwnedByLast(c: Config, names: set<string>, h: Hash, n: string) returns (st: RingState)
    requires c.Count() > 0 && NearestIn(c, names, h, n)
    ensures WellFormed(c, st) && Elements(st.nodes) == names && Owner(st.ring, h) == n
  {
    var rest := RingOver(c, names - {n});
    st := Add(c, rest, n);
    NearerThanTheRing(c, rest, n, h);
    AddMovesOnlyToTheNewNode(c, rest, n, h);
    JoinedLast(c, names, rest, n);
  }

  lemma NearerThanTheRing(c: Config, st: RingState, n: string, h: Hash)
    requires WellFormed(c, st) && c.Count() > 0
    requires forall m :: m in Elements(st.nodes) ==> Rank(c, n, h) <= Rank(c, m, h)
    ensures Rank(c, n, h) <= RingDistance(st.ring, h)
  {
    NodeDistanceIsMinimum(c, n, h, c.Count());
    if st.nodes == [] {
      RingLength(c, st);
    } else {
      OwnerDistance(c, st, h);
      assert Owner(st.ring, h) in Elements(st.nodes);
    }
  }

  lemma LaterOwns(c: Config, a: string, b: string, h: Hash, st: RingState)
    requires a != b && c.Count() > 0 && Rank(c, a, h) == Rank(c, b, h) && st == Add(c, Add(c, EMPTY, a), b)
    ensures WellFormed(c, st) && Elements(st.nodes) == {a, b} && Owner(st.ring, h) == b
  {
    PairWellFormed(c, a, b);
    LaterNodeWinsTie(c, a, b, h);
    assert Elements([a, b]) == {a, b};
  }

  lemma PairWellFormed(c: Config, a: string, b: string)
    requires a != b
    ensures WellFormed(c, Add(c, Add(c, EMPTY, a), b)) && Add(c, Add(c, EMPTY, a), b).nodes == [a, b]
  {
    SingleWellFormed(c, a);
    SecondWellFormed(c, Add(c, EMPTY, a), a, b);
  }

  lemma SecondWellFormed(c: Config, st: RingState, a: string, b: string)
    requires WellFormed(c, st) && st.nodes == [a] && a != b
    ensures WellFormed(c, Add(c, st, b)) && Add(c, st, b).nodes == [a, b]
  {
    AddWellFormed(c, st, b);
  }

  lemma SingleWellFormed(c: Config, a: string)
    ensures WellFormed(c, Add(c, EMPTY, a)) && Add(c, EMPTY, a).nodes == [a]
  {
    assert WellFormed(c, EMPTY);
    AddWellFormed(c, EMPTY, a);
  }

  // ----- removal

  /** Entry `k` is the nearest one behind `h` that is not `name`'s. */
  ghost predicate NearestOther(ring: seq<VirtualNode>, h: Hash, name: string, k: int) {
    && 0 <= k < |ring| && ring[k].name != name
    && forall j :: 0 <= j < |ring| && j != k && ring[j].name != name ==> Beats(h, ring[k].hash, k, ring[j].hash, j)
  }

  lemma RemoveOwner(ring: seq<VirtualNode>, h: Hash, name: string, k: nat)
    requires Sorted(ring) && NearestOther(ring, h, name, k)
    ensures Owner(Filter(ring, HasName(name)), h) == ring[k].name
  {
    var del := HasName(name);
    var ring', i := Filter(ring, del), |Kept(ring, del, k)|;
    KeptIndex(ring, del, k, |ring|);
    forall a, b | 0 <= a < b < |ring'|
      ensures ring'[a].hash <= ring'[b].hash
    {
      var u, w := FilterPair(ring, del, a, b);
    }
    forall b | 0 <= b < |ring'| && b != i
      ensures Beats(h, ring'[i].hash, i, ring'[b].hash, b)
    {
      var j := KeptOrigin(ring, del, b, |ring|);
      assert Beats(h, ring[k].hash, k, ring[j].hash, j);
      if j < k {
        KeptIndex(ring, del, j, k);
      }
    }
    OwnerIsNearest(ring', h, i);
  }

  lemma {:induction false} NearestOtherExists(ring: seq<VirtualNode>, h: Hash, name: string) returns (k: nat)
    requires exists v :: v in ring && v.name != name
    ensures NearestOther(ring, h, name, k)
  {
    var last := |ring| - 1;
    if exists v :: v in ring[..last] && v.name != name {
      k := NearestOtherExists(ring[..last], h, name);
      if ring[last].name != name && Distance(h, ring[last].hash) <= Distance(h, ring[k].hash) {
        k := last;
      }
    } else {
      k := last;
      assert forall j :: 0 <= j < last ==> ring[j] in ring[..last];
    }
  }

  /** Minimal disruption of RemoveNode, ties included: other nodes' hashes stay,
      and the hashes of the removed node go to the nearest remaining entry. */
  lemma RemoveMovesOnlyTheRemovedNodesHashes(c: Config, st: RingState, name: string, h: Hash)
    requires WellFormed(c, st)
    ensures var ring' := Remove(st, name).ring;
            if Owner(st.ring, h) != name then Owner(ring', h) == Owner(st.ring, h)
            else if exists k :: NearestOther(st.ring, h, name, k)
            then forall k :: NearestOther(st.ring, h, name, k) ==> Owner(ring', h) == st.ring[k].name != name
            else Owner(ring', h) == ""
  {
    var ring' := Remove(st, name).ring;
    if st.ring != [] {
      OwnerIsNearest(st.ring, h, OwnerIndex(st.ring, h));
      assert Owner(st.ring, h) != name ==> NearestOther(st.ring, h, name, OwnerIndex(st.ring, h));
    }
    forall k | NearestOther(st.ring, h, name, k)
      ensures Owner(ring', h) == st.ring[k].name
    {
      RemoveOwner(st.ring, h, name, k);
    }
    if !exists k :: NearestOther(st.ring, h, name, k) {
      if exists v :: v in st.ring && v.name != name {
        var k := NearestOtherExists(st.ring, h, name);
      }
      if ring' != [] {
        FilterMembers(st.ring, HasName(name), ring'[0]);
      }
    }
  }

  // ----- arcs

  /** How many hashes lie from entry `k` up to the next one, around the circle. */
  ghost function Arc(ring: seq<VirtualNode>, k: nat): int
    requires k < |ring|
  {
    if k + 1 < |ring| then ring[k + 1].hash - ring[k].hash else ring[0].hash + MODULUS - ring[k].hash
  }

  ghost function ArcSum(ring: seq<VirtualNode>, n: nat): int
    requires n <= |ring|
  {
    if n == 0 then 0 else ArcSum(ring, n - 1) + Arc(ring, n - 1)
  }

  /** `h` lies on the arc of entry `k`; the last arc wraps around zero. */
  ghost predicate OnArc(ring: seq<VirtualNode>, h: Hash, k: nat)
    requires k < |ring|
  {
    if k + 1 < |ring| then ring[k].hash <= h < ring[k + 1].hash else ring[k].hash <= h || h < ring[0].hash
  }

  lemma {:induction false} ArcSumTelescopes(ring: seq<VirtualNode>, n: nat)
    requires n < |ring|
    ensures ArcSum(ring, n) == ring[n].hash - ring[0].hash
  {
    if n > 0 {
      ArcSumTelescopes(ring, n - 1);
    }
  }

  /** The arcs are what the lookup returns, and together they cover the 2^64
      hashes exactly once, zero-length arcs of tied entries included. */
  lemma ArcsPartitionTheCircle(ring: seq<VirtualNode>)
    requires Sorted(ring) && ring != []
    ensures forall h, k :: 0 <= k < |ring| ==> (OnArc(ring, h, k) <==> OwnerIndex(ring, h) == k)
    ensures forall k :: 0 <= k < |ring| ==> Arc(ring, k) >= 0
    ensures ArcSum(ring, |ring|) == 0x1_0000_0000_0000_0000
  {
    ArcSumTelescopes(ring, |ring| - 1);
    forall h, k | 0 <= k < |ring|
      ensures OnArc(ring, h, k) <==> OwnerIndex(ring, h) == k
    {
      OnArcIffOwner(ring, h, k);
    }
  }

  lemma OnArcIffOwner(ring: seq<VirtualNode>, h: Hash, k: nat)
    requires Sorted(ring) && k < |ring|
    ensures OnArc(ring, h, k) <==> OwnerIndex(ring, h) == k
  {
    var p := UpperBound(ring, h);
    assert p > 0 ==> ring[0].hash <= ring[p - 1].hash;
    assert p > 0 && k + 1 < p ==> ring[k + 1].hash <= ring[p - 1].hash;
  }
}
