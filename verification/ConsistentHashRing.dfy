/** The ring object every node keeps, updated in place. */
module ConsistentHashRing {
  import opened Values
  import opened HashRing
  import RingTheory
  import Slices

  class Ring {
    const sum64: string -> Hash
    const virtualNodes: int
    var ring: array<VirtualNode>
    var ringLen: nat
    var nodes: array<string>
    var nodesLen: nat

    ghost function Config(): Config {
      NewConfig(sum64, virtualNodes)
    }

    ghost function Repr(): set<object>
      reads this
    {
      {this, ring, nodes}
    }

    ghost function State(): RingState
      reads this, ring, nodes
      requires ringLen <= ring.Length && nodesLen <= nodes.Length
    {
      RingState(nodes[..nodesLen], ring[..ringLen])
    }

    ghost predicate Valid()
      reads this, ring, nodes
    {
      ringLen <= ring.Length && nodesLen <= nodes.Length && WellFormed(Config(), State())
    }

    /** All that looking up an owner needs. */
    ghost predicate Searchable()
      reads this, ring, nodes
    {
      ringLen <= ring.Length && nodesLen <= nodes.Length && Sorted(State().ring)
    }

    /** NewRing */
    constructor (sum64: string -> Hash, virtualNodes: int)
      ensures Valid() && fresh(Repr()) && State() == EMPTY
      ensures this.sum64 == sum64 && this.virtualNodes == virtualNodes
    {
      this.sum64 := sum64;
      this.virtualNodes := virtualNodes;
      ring := new VirtualNode[0];
      ringLen := 0;
      nodes := new string[0];
      nodesLen := 0;
    }

    /** Panics, before anything changed, when the node is listed already. */
    method AddNode(name: string) returns (panicked: bool)
      requires Valid()
      modifies Repr()
      ensures Valid() && fresh(Repr() - old(Repr()))
      ensures panicked <==> name in old(State()).nodes
      ensures State() == RingTheory.Update(Config(), old(State()), RingTheory.Joined(name))
      ensures panicked ==> State() == old(State())
      ensures !panicked ==>
                && State().nodes == old(State()).nodes + [name]
                && |State().ring| == |old(State()).ring| + (if virtualNodes > 0 then virtualNodes else 0)
                && forall v :: v in State().ring <==>
                     v in old(State()).ring
                     || (v.name == name && v.index < virtualNodes && v.hash == sum64(name + Decimal(v.index)))
    {
      panicked := Slices.Contains(nodes, nodesLen, name);
      if panicked {
        return;
      }
      ghost var before := State();
      RingTheory.AddWellFormed(Config(), before, name);
      RingTheory.AddedEntries(Config(), before, name);
      nodes := Slices.Append(nodes, nodesLen, name);
      nodesLen := nodesLen + 1;
      InsertEntries(name, before.ring);
    }

    /** The first `i` virtual nodes of the node are in. */
    ghost predicate Filled(before: seq<VirtualNode>, name: string, i: nat)
      reads this, ring
    {
      ringLen <= ring.Length && ring[..ringLen] == InsertUpTo(Config(), before, name, i)
    }

    /** The loop over the node's virtual nodes. */
    method InsertEntries(name: string, ghost before: seq<VirtualNode>)
      requires Sorted(before) && Filled(before, name, 0)
      modifies this`ring, this`ringLen, ring
      ensures (ring == old(ring) || fresh(ring)) && Filled(before, name, Config().Count())
    {
      var i := 0;
      while i < virtualNodes
        invariant 0 <= i <= Config().Count()
        invariant (ring == old(ring) || fresh(ring)) && Filled(before, name, i)
      {
        InsertNext(name, i, before);
        i := i + 1;
      }
    }

    /** One turn of the loop. */
    method InsertNext(name: string, i: nat, ghost before: seq<VirtualNode>)
      requires Sorted(before) && Filled(before, name, i)
      modifies this`ring, this`ringLen, ring
      ensures (ring == old(ring) || fresh(ring)) && Filled(before, name, i + 1)
    {
      RingTheory.InsertUpToSorted(Config(), before, name, i);
      InsertEntry(name, i);
    }

    method InsertEntry(name: string, i: nat)
      requires ringLen <= ring.Length && Sorted(ring[..ringLen])
      modifies this`ring, this`ringLen, ring
      ensures ring == old(ring) || fresh(ring)
      ensures ringLen <= ring.Length
      ensures ring[..ringLen] == Insert(old(ring[..ringLen]), VirtualNodeOf(Config(), name, i))
    {
      var node := VirtualNode(name, i, sum64(name + Decimal(i)));
      ring := Slices.SortInto(ring, ringLen, node);
      ringLen := ringLen + 1;
    }

    /** Panics when the node is not listed. */
    method RemoveNode(name: string) returns (panicked: bool)
      requires Valid()
      modifies Repr()
      ensures Valid() && Repr() == old(Repr())
      ensures panicked <==> name !in old(State()).nodes
      ensures State() == RingTheory.Update(Config(), old(State()), RingTheory.Left(name))
      ensures panicked ==> State() == old(State())
      ensures !panicked ==>
                && (forall n :: n in State().nodes <==> n in old(State()).nodes && n != name)
                && forall v :: v in State().ring <==> v in old(State()).ring && v.name != name
    {
      var found := Slices.Contains(nodes, nodesLen, name);
      if !found {
        return true;
      }
      RingTheory.RemoveWellFormed(Config(), State(), name);
      RingTheory.RemovedEntries(State(), name);
      nodesLen := Slices.DeleteFunc(nodes, nodesLen, IsName(name), "");
      ringLen := Slices.DeleteFunc(ring, ringLen, HasName(name), VirtualNode("", 0, 0));
      return false;
    }

    method NodeOf(key: string) returns (hash: Hash, node: string)
      requires Searchable()
      ensures hash == sum64(key) && node == Owner(State().ring, hash)
    {
      hash := sum64(key);
      node := NodeOfDirect(hash);
    }

    method NodeOfDirect(hash: Hash) returns (node: string)
      requires Searchable()
      ensures node == Owner(State().ring, hash)
    {
      if ringLen == 0 {
        return "";
      }
      ghost var entries := ring[..ringLen];
      var i: int := Slices.SearchAbove(ring, ringLen, hash);
      i := i - 1;
      if i < 0 {
        i := ringLen - 1;
      }
      assert ring[i] == entries[OwnerIndex(entries, hash)];
      return ring[i].name;
    }
  }
}
