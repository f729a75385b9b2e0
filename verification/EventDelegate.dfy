/** The membership event handler of one node, and how its calls are runs of the
    cluster's state machine. */
module EventDelegate {
  import opened Values
  import opened HashRing
  import opened Grpc
  import opened Protocol
  import opened TransferLoop
  import ConsistentHashRing
  import GrpcPool
  import NoEvictionStorage

  // ----- the loop is a run of the state machine

  /** These steps bring node `n` to `nd`. */
  ghost predicate Gets(c: Config, s: Cluster, n: string, steps: seq<Step>, nd: Node) {
    Legal(c, s, steps) && n in s && Run(c, s, steps)[n] == nd
  }

  /** Whatever happens from `s` on, node `n` sends only to other members. */
  ghost predicate SendsToMembers(c: Config, s: Cluster, n: string) {
    forall steps :: Legal(c, s, steps) ==> SendsToMember(Run(c, s, steps), n)
  }

  predicate SendsToMember(s: Cluster, n: string) {
    n in s && (s[n].task.Sending? ==> s[n].task.to in s && s[n].task.to != n)
  }

  lemma InvSendsToMembers(c: Config, names: set<string>, s: Cluster, n: string)
    requires Inv(c, names, s) && n in s
    ensures SendsToMembers(c, s, n)
  {
    forall steps | Legal(c, s, steps)
      ensures SendsToMember(Run(c, s, steps), n)
    {
      RunInv(c, names, s, steps);
      InvSendsToMember(c, names, Run(c, s, steps), n);
    }
  }

  lemma InvSendsToMember(c: Config, names: set<string>, s: Cluster, n: string)
    requires Inv(c, names, s) && n in s
    ensures SendsToMember(s, n)
  {
    assert NodeInv(c, names, n, s[n]);
  }

  /** Goes one step on. */
  lemma GoOn(c: Config, s: Cluster, n: string, steps: seq<Step>, nd: Node, step: Step)
    requires SendsToMembers(c, s, n) && Gets(c, s, n, steps, nd)
    requires step.at == n && Ready(nd, step) && (step.Join? ==> step.who in s)
    ensures Gets(c, s, n, steps + [step], Local(c, nd, step))
  {
    var s' := Run(c, s, steps);
    Effect(c, s', step);
    OneStep(c, s', step);
    RunConcat(c, s, steps, [step]);
  }

  /** One turn of the loop takes up to three steps. */
  lemma TurnIsRun(
      c: Config, s: Cluster, self: string, steps: seq<Step>, nd: Node, key: string, turn: Turn)
    returns (steps': seq<Step>)
    requires SendsToMembers(c, s, self) && Gets(c, s, self, steps, nd) && nd.task.Scanning? && key in nd.task.pending
    ensures Gets(c, s, self, steps', OneTurn(nd, self, key, turn))
  {
    var nd' := VisitKey(nd, self, key, turn.dials);
    GoOn(c, s, self, steps, nd, Visit(self, key, turn.dials));
    if !nd'.task.Sending? {
      return steps + [Visit(self, key, turn.dials)];
    }
    steps' := WriteIsRun(c, s, self, steps + [Visit(self, key, turn.dials)], nd', turn);
  }

  lemma WriteIsRun(
      c: Config, s: Cluster, self: string, steps: seq<Step>, nd: Node, turn: Turn)
    returns (steps': seq<Step>)
    requires SendsToMembers(c, s, self) && Gets(c, s, self, steps, nd) && nd.task.Sending?
    ensures Gets(c, s, self, steps', WriteEnds(nd, turn))
  {
    if Accepts(nd.task.pair) && turn.answers {
      var deliver := Deliver(self, Acked, false);
      GoOn(c, s, self, steps, nd, deliver);
      GoOn(c, s, self, steps + [deliver], Answered(nd, true), Protocol.Delete(self));
      steps' := steps + [deliver] + [Protocol.Delete(self)];
    } else {
      GoOn(c, s, self, steps, nd, Deliver(self, Refused, false));
      steps' := steps + [Deliver(self, Refused, false)];
    }
  }

  /** `order` lists the keys a loop has still to produce, if it has not stopped. */
  ghost predicate Iterates(nd: Node, order: seq<string>) {
    nd.task.Idle? || (nd.task.Scanning? && NoDuplicates(order) && nd.task.pending == Elements(order))
  }

  /** After `n` turns, the rest of the keys is pending. */
  lemma {:induction false} TurnsPending(nd: Node, self: string, order: seq<string>, turns: seq<Turn>, n: nat)
    requires nd.task.Scanning? && NoDuplicates(order) && nd.task.pending == Elements(order)
    requires n <= |order| && n <= |turns|
    ensures var p := TurnsUpTo(nd, self, order, turns, n); p.task.Idle? || p.task.pending == Elements(order[n..])
  {
    if n == 0 {
      assert order[0..] == order;
    } else {
      TurnsPending(nd, self, order, turns, n - 1);
      assert order[n - 1] in order[n - 1..];
      assert Elements(order[n - 1..]) - {order[n - 1]} == Elements(order[n..]);
    }
  }

  lemma {:induction false} TurnsAreRun(
      c: Config, s: Cluster, self: string, steps: seq<Step>, nd: Node,
      order: seq<string>, turns: seq<Turn>, n: nat)
    returns (steps': seq<Step>, nd': Node)
    requires SendsToMembers(c, s, self) && Gets(c, s, self, steps, nd)
    requires n <= |order| && n <= |turns| && Iterates(nd, order)
    ensures Gets(c, s, self, steps', nd') && nd' == TurnsUpTo(nd, self, order, turns, n)
  {
    if n == 0 {
      steps', nd' := steps, nd;
    } else {
      steps', nd' := TurnsAreRun(c, s, self, steps, nd, order, turns, n - 1);
      var p' := LastTurn(nd, self, order, turns, n, nd');
      if nd'.task.Scanning? {
        steps' := TurnIsRun(c, s, self, steps', nd', order[n - 1], turns[n - 1]);
      }
      nd' := p';
    }
  }

  lemma LastTurn(nd: Node, self: string, order: seq<string>, turns: seq<Turn>, n: nat, p: Node) returns (p': Node)
    requires 0 < n <= |order| && n <= |turns| && Iterates(nd, order) && p == TurnsUpTo(nd, self, order, turns, n - 1)
    ensures p' == TurnsUpTo(nd, self, order, turns, n)
    ensures (p.task.Idle? && p' == p)
            || (p.task.Scanning? && order[n - 1] in p.task.pending
                && p' == OneTurn(p, self, order[n - 1], turns[n - 1]))
  {
    p' := TurnsUpTo(nd, self, order, turns, n);
    TurnKey(nd, self, order, turns, n - 1);
  }

  lemma TurnKey(nd: Node, self: string, order: seq<string>, turns: seq<Turn>, n: nat)
    requires Iterates(nd, order)
    requires n < |order| && n < |turns|
    ensures var p := TurnsUpTo(nd, self, order, turns, n); p.task.Scanning? ==> order[n] in p.task.pending
  {
    if nd.task.Idle? {
      StopsThere(nd, self, order, turns, 0, n);
    } else {
      TurnsPending(nd, self, order, turns, n);
      assert order[n] in order[n..];
    }
  }

  /** Every call of NotifyJoin, whatever the iteration order and the network do,
      is a run of the state machine, so that what is proved of runs holds of it. */
  lemma NotifyJoinIsRun(
      c: Config, names: set<string>, s: Cluster, self: string, who: string, meta: Meta,
      order: seq<string>, turns: seq<Turn>)
    returns (steps: seq<Step>)
    requires Inv(c, names, s) && Enabled(s, Join(self, who, meta)) && |turns| == |order|
    requires NoDuplicates(order) && Elements(order) == s[self].store.Keys
    ensures Gets(c, s, self, steps, Loop(BeginJoin(c, s[self], who, meta), self, order, turns))
  {
    var nd := BeginJoin(c, s[self], who, meta);
    InvSendsToMembers(c, names, s, self);
    GoOn(c, s, self, [], s[self], Join(self, who, meta));
    assert [] + [Join(self, who, meta)] == [Join(self, who, meta)];
    var p;
    steps, p := TurnsAreRun(c, s, self, [Join(self, who, meta)], nd, order, turns, |order|);
    NothingPending(nd, self, order, turns);
    if p.task.Scanning? {
      GoOn(c, s, self, steps, p, Finish(self));
      steps := steps + [Finish(self)];
    } else {
      assert Loop(nd, self, order, turns) == p;
    }
  }

  lemma NothingPending(nd: Node, self: string, order: seq<string>, turns: seq<Turn>)
    requires Iterates(nd, order)
    requires |turns| == |order|
    ensures var p := TurnsUpTo(nd, self, order, turns, |order|); p.task.Scanning? ==> p.task.pending == {}
  {
    if nd.task.Idle? {
      StopsThere(nd, self, order, turns, 0, |order|);
    } else {
      TurnsPending(nd, self, order, turns, |order|);
      assert order[|order|..] == [];
    }
  }

  // ----- the handler

  function AddressIn(meta: Meta): string {
    match meta
    case Parsed(addr) => addr
    case Unparsable(fallback) => fallback
  }

  lemma JoinComesTo(
      c: Config, before: Node, conns: Conns, self: string, name: string, meta: Meta, order: seq<string>, net: seq<Turn>)
    requires |net| == |order| && NoDuplicates(order) && before.pool == map n | n in conns :: conns[n].addr
    ensures var conns1, nd := GrpcPool.WithEntry(conns, name, AddressIn(meta)), BeginJoin(c, before, name, meta);
            var (met, conns') := MetUpTo(conns1, nd, self, order, net, |order|);
            JoinOutcome(c, before, conns, self, name, meta, order, net, Loop(nd, self, order, met), conns')
  {
    match meta
    case Parsed(addr) => ParsedJoin(c, before, conns, self, name, addr, order, net);
    case Unparsable(fallback) => UnparsedJoin(c, before, conns, self, name, fallback, order, net);
  }

  class Handler {
    const localNodeName: string
    const hashRing: ConsistentHashRing.Ring
    const grpcPool: GrpcPool.Pool
    const store: NoEvictionStorage.Storage

    constructor (localNodeName: string, hashRing: ConsistentHashRing.Ring, store: NoEvictionStorage.Storage,
        grpcPool: GrpcPool.Pool)
      ensures this.localNodeName == localNodeName && this.hashRing == hashRing
      ensures this.grpcPool == grpcPool && this.store == store
    {
      this.localNodeName := localNodeName;
      this.hashRing := hashRing;
      this.grpcPool := grpcPool;
      this.store := store;
    }

    ghost predicate Valid()
      reads hashRing, hashRing.ring, hashRing.nodes, store
    {
      hashRing.Valid() && store.Valid()
    }

    /** The handler's node, between two calls. */
    ghost function State(): Node
      reads hashRing, hashRing.ring, hashRing.nodes, grpcPool, store
      requires Valid()
    {
      Node(hashRing.State(), grpcPool.Addresses(), store.Cells(), Idle)
    }

    /** `order` is the order in which the iteration over the store produces the
        keys, `net` how dialling and writing go in each turn. */
    method NotifyJoin(name: string, meta: Meta, order: seq<string>, net: seq<Turn>) returns (panicked: bool)
      requires Valid() && |net| == |order| && NoDuplicates(order) && Elements(order) == store.Cells().Keys
      modifies hashRing.Repr(), grpcPool, store
      ensures Valid() && fresh(hashRing.Repr() - old(hashRing.Repr()))
      ensures panicked <==> name != localNodeName && name in old(State()).view.nodes
      ensures name == localNodeName || panicked ==>
                State() == old(State()) && grpcPool.connections == old(grpcPool.connections)
      ensures name != localNodeName && !panicked ==>
                var nd := BeginJoin(hashRing.Config(), old(State()), name, meta);
                var conns := GrpcPool.WithEntry(old(grpcPool.connections), name, AddressIn(meta));
                var (met, conns') := MetUpTo(conns, nd, localNodeName, order, net, |order|);
                State() == Loop(nd, localNodeName, order, met) && grpcPool.connections == conns'
      ensures name != localNodeName && !panicked ==>
                JoinOutcome(hashRing.Config(), old(State()), old(grpcPool.connections), localNodeName, name, meta,
                  order, net, State(), grpcPool.connections)
    {
      panicked := false;
      if name == localNodeName {
        return;
      }
      panicked := hashRing.AddNode(name);
      if panicked {
        return;
      }
      Admit(name, meta, order, net, old(State()));
      JoinComesTo(hashRing.Config(), old(State()), old(grpcPool.connections), localNodeName, name, meta, order, net);
    }

    /** The rest of the call, once the new node is in the ring. */
    method Admit(name: string, meta: Meta, order: seq<string>, net: seq<Turn>, ghost before: Node)
      requires Valid() && |net| == |order| && NoDuplicates(order) && Elements(order) == store.Cells().Keys
      requires before.pool == grpcPool.Addresses() && before.store == store.Cells()
      requires hashRing.State() == Add(hashRing.Config(), before.view, name)
      modifies grpcPool, store
      ensures Valid()
      ensures var nd := BeginJoin(hashRing.Config(), before, name, meta);
              var conns := GrpcPool.WithEntry(old(grpcPool.connections), name, AddressIn(meta));
              var (met, conns') := MetUpTo(conns, nd, localNodeName, order, net, |order|);
              State() == Loop(nd, localNodeName, order, met) && grpcPool.connections == conns'
    {
      var _ := grpcPool.AddConnection(name, AddressIn(meta));
      ghost var nd := BeginJoin(hashRing.Config(), before, name, meta);
      if meta.Unparsable? {
        StaysStopped(grpcPool.connections, nd, localNodeName, order, net, 0, |order|);
      } else {
        Transfer(order, net, nd);
      }
    }

    /** The loop that hands over what another node owns now. */
    method Transfer(order: seq<string>, net: seq<Turn>, ghost nd: Node)
      requires Sorted(nd.view.ring) && nd.task.Scanning? && InStep(nd)
      requires |net| == |order| && NoDuplicates(order) && Elements(order) == store.Cells().Keys
      modifies grpcPool, store
      ensures exists goOn :: AtTurn(old(grpcPool.connections), nd, order, net, |order|, goOn)
    {
      var keys := store.ListKeys();
      forall j | 0 <= j < |order|
        ensures Ahead(keys, order[j])
      {
        assert order[j] in Elements(order);
      }
      var goOn := TakeTurns(keys, order, net, nd, grpcPool.connections);
    }

    method TakeTurns(keys: map<string, Hash>, order: seq<string>, net: seq<Turn>, ghost nd: Node, ghost conns: Conns)
      returns (goOn: bool)
      requires Sorted(nd.view.ring) && |net| == |order| && NoDuplicates(order) && AllAhead(keys, order, 0)
      requires nd.task.Scanning? && AtTurn(conns, nd, order, net, 0, true)
      modifies grpcPool, store
      ensures AtTurn(conns, nd, order, net, |order|, goOn)
    {
      var i := 0;
      goOn := true;
      while i < |order| && goOn
        invariant 0 <= i <= |order| && AtTurn(conns, nd, order, net, i, goOn)
        invariant AllAhead(keys, order, i)
      {
        goOn := TakeTurn(keys, order, net, i, nd, conns);
        i := i + 1;
      }
      if !goOn {
        StoppedForGood(conns, nd, order, net, i);
      }
    }

    /** Pool, store and connections are as the first `i` turns leave them. */
    ghost predicate AtTurn(conns: Conns, nd: Node, order: seq<string>, net: seq<Turn>, i: nat, goOn: bool)
      reads hashRing, hashRing.ring, hashRing.nodes, grpcPool, store
      requires i <= |order| == |net| && (nd.task.Scanning? || nd.task.Idle?)
    {
      && InStep(AfterTurns(conns, nd, localNodeName, order, net, i))
      && grpcPool.connections == MetUpTo(conns, nd, localNodeName, order, net, i).1
      && (goOn <==> AfterTurns(conns, nd, localNodeName, order, net, i).task.Scanning?)
    }

    lemma StoppedForGood(conns: Conns, nd: Node, order: seq<string>, net: seq<Turn>, i: nat)
      requires i <= |order| == |net| && nd.task.Scanning? && AtTurn(conns, nd, order, net, i, false)
      ensures AtTurn(conns, nd, order, net, |order|, false)
    {
      StaysStopped(conns, nd, localNodeName, order, net, i, |order|);
    }

    /** The handler's node has the view, the addresses and the store of `nd`. */
    ghost predicate InStep(nd: Node)
      reads hashRing, hashRing.ring, hashRing.nodes, grpcPool, store
    {
      && hashRing.ringLen <= hashRing.ring.Length && hashRing.nodesLen <= hashRing.nodes.Length && store.Valid()
      && nd.view == hashRing.State() && nd.pool == grpcPool.Addresses() && nd.store == store.Cells()
    }

    /** A key still to come is stored under the hash listed for it. */
    ghost predicate Ahead(keys: map<string, Hash>, key: string)
      reads store
    {
      key in keys && store.Valid() && key in store.Cells() && store.Cells()[key].hash == keys[key]
    }

    ghost predicate AllAhead(keys: map<string, Hash>, order: seq<string>, i: nat)
      reads store
    {
      forall j :: i <= j < |order| ==> Ahead(keys, order[j])
    }

    /** The turn at place `i`. */
    method TakeTurn(
        keys: map<string, Hash>, order: seq<string>, net: seq<Turn>, i: nat, ghost nd: Node, ghost conns: Conns)
      returns (goOn: bool)
      requires Sorted(nd.view.ring) && i < |order| == |net| && NoDuplicates(order) && AllAhead(keys, order, i)
      requires nd.task.Scanning? && AtTurn(conns, nd, order, net, i, true)
      modifies grpcPool, store
      ensures AtTurn(conns, nd, order, net, i + 1, goOn) && AllAhead(keys, order, i + 1)
    {
      NextTurn(conns, nd, localNodeName, order, net, i);
      assert Ahead(keys, order[i]);
      goOn := HandOver(order[i], keys[order[i]], net[i], AfterTurns(conns, nd, localNodeName, order, net, i));
      forall j | i + 1 <= j < |order|
        ensures Ahead(keys, order[j])
      {
        assert old(Ahead(keys, order[j]));
      }
    }

    /** The loop's body; it goes on unless something failed. */
    method HandOver(key: string, hash: Hash, net: Turn, ghost nd: Node) returns (goOn: bool)
      requires Sorted(nd.view.ring) && nd.task.Scanning? && InStep(nd)
      requires key in store.Cells() && store.Cells()[key].hash == hash
      modifies grpcPool, store
      ensures var met := MetTurn(old(grpcPool.connections), nd, localNodeName, key, net);
              var nd' := OneTurn(nd, localNodeName, key, met);
              InStep(nd') && (goOn <==> nd'.task.Scanning?)
      ensures grpcPool.connections == Dialled(old(grpcPool.connections), nd, localNodeName, key, net)
      ensures store.Cells() == old(store.Cells()) || store.Cells() == old(store.Cells()) - {key}
    {
      var target := hashRing.NodeOfDirect(hash);
      if target == localNodeName {
        return true;
      }
      var ok := grpcPool.GetClient(target, net.dials);
      if !ok {
        return false;
      }
      var value := store.Read(key);
      if !Accepts(KeyValuePair(key, hash, value)) || !net.answers {
        return false;
      }
      store.Delete(key);
      return true;
    }

    method NotifyLeave(name: string) returns (panicked: bool)
      requires Valid()
      modifies hashRing.Repr(), grpcPool
      ensures Valid() && hashRing.Repr() == old(hashRing.Repr())
      ensures panicked <==> name != localNodeName && name !in old(State()).view.nodes
      ensures State() == if name == localNodeName || panicked then old(State())
                         else Protocol.NotifyLeave(old(State()), name)
      ensures grpcPool.connections == if name == localNodeName || panicked then old(grpcPool.connections)
                                      else old(grpcPool.connections) - {name}
    {
      if name == localNodeName {
        return false;
      }
      panicked := hashRing.RemoveNode(name);
      if panicked {
        return;
      }
      var ok := grpcPool.RemoveConnection(name);
    }
  }
}
