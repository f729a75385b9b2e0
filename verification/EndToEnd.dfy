/** From the protocol to the client: in a settled cluster, and so after a join,
    every stored key is found from every node. */
module EndToEnd {
  import opened Values
  import opened HashRing
  import opened Protocol
  import opened Joins
  import opened Placement
  import Routing
  import Stores

  /** The cluster as its clients meet it. */
  function ServersOf(s: Cluster): Routing.Servers {
    map n | n in s :: Routing.Server(s[n].view, s[n].pool.Keys, Stores.Plain(s[n].store))
  }

  lemma SettledAgrees(c: Config, names: set<string>, s: Cluster, key: string)
    requires Settled(c, names, s) && c.Count() > 0 && OneNearest(c, names, c.sum64(key))
    ensures Routing.Agreed(c, ServersOf(s), key) && Routing.ValidStores(ServersOf(s))
  {
    forall n | n in s
      ensures KnowsAll(c, s.Keys, n, s[n])
    {
      assert SettledNode(c, names, n, s[n]);
    }
    AllKnowAll(c, s, key);
  }

  /** In a settled cluster, a GET of a stored key is answered with its value, wherever it is sent. */
  lemma SettledFinds(c: Config, names: set<string>, s: Cluster, p: string, key: string, from: string)
    requires Settled(c, names, s) && c.Count() > 0 && OneNearest(c, names, c.sum64(key))
    requires p in s && key in s[p].store && from in s
    ensures Routing.HandleGet(c, ServersOf(s), from, key) == Routing.Found(s[p].store[key].value)
  {
    var ss := ServersOf(s);
    SettledAgrees(c, names, s, key);
    HeldByOwner(c, names, p, s[p], key);
    Routing.SameTarget(c, ss, key, p, from);
    Routing.GetAnswersOwner(c, ss, from, key);
  }

  lemma HeldByOwner(c: Config, names: set<string>, p: string, nd: Node, key: string)
    requires SettledNode(c, names, p, nd) && key in nd.store
    ensures Owner(nd.view.ring, c.sum64(key)) == p && key != "" && Transferable(nd.store[key])
  {
  }

  lemma EndAgrees(
      c: Config, members: set<string>, joiners: set<string>, s0: Cluster, steps: seq<Step>, key: string)
    requires Gathering(c, members, joiners, s0) && Legal(c, s0, steps) && AllUndisturbed(steps)
    requires Over(members + joiners, Run(c, s0, steps))
    requires c.Count() > 0 && OneNearest(c, members + joiners, c.sum64(key))
    ensures Routing.Agreed(c, ServersOf(Run(c, s0, steps)), key) && Routing.ValidStores(ServersOf(Run(c, s0, steps)))
  {
    var s := Run(c, s0, steps);
    forall n | n in s
      ensures KnowsAll(c, s.Keys, n, s[n])
    {
      NodeInTheEnd(c, members, joiners, s0, steps, n);
    }
    AllKnowAll(c, s, key);
  }

  ghost predicate KnowsAll(c: Config, names: set<string>, n: string, nd: Node) {
    WellFormed(c, nd.view) && Elements(nd.view.nodes) == names && names - {n} <= nd.pool.Keys
  }

  lemma AllKnowAll(c: Config, s: Cluster, key: string)
    requires c.Count() > 0 && "" !in s && OneNearest(c, s.Keys, c.sum64(key))
    requires forall n :: n in s ==> KnowsAll(c, s.Keys, n, s[n])
    ensures Routing.Agreed(c, ServersOf(s), key) && Routing.ValidStores(ServersOf(s))
  {
    assert ServersOf(s).Keys == s.Keys;
  }

  /** Where the key is at its owner, any server answers with what is there. */
  lemma OwnerAnswers(c: Config, s: Cluster, key: string, from: string) returns (n: string)
    requires Routing.Agreed(c, ServersOf(s), key) && from in s && key != ""
    requires AtOwner(c, s, key) && Held(s, key)
    requires forall n :: n in s && key in s[n].store ==> Transferable(s[n].store[key])
    ensures n in s && key in s[n].store
    ensures Routing.HandleGet(c, ServersOf(s), from, key) == Routing.Found(s[n].store[key].value)
  {
    n :| n in s && key in s[n].store;
    assert Routing.Target(c, ServersOf(s)[from], key) == n;
    Routing.GetAnswersOwner(c, ServersOf(s), from, key);
  }

  lemma KeptTransferable(
      c: Config, members: set<string>, joiners: set<string>, s0: Cluster, key: string, s: Cluster)
    requires Gathering(c, members, joiners, s0) && AllKeep(c, members, s0, key, s)
    ensures forall n :: n in s && key in s[n].store ==> Transferable(s[n].store[key])
  {
    forall n | n in s && key in s[n].store
      ensures Transferable(s[n].store[key])
    {
      assert Keeps(c, members, s0, key, n, s[n]);
      CellsFromMembers(c, members, joiners, s0, key, s[n].store[key]);
    }
  }

  lemma OldValueAnswers(
      c: Config, members: set<string>, joiners: set<string>, s0: Cluster, s: Cluster, key: string, from: string)
    returns (q: string)
    requires Gathering(c, members, joiners, s0) && AllKeep(c, members, s0, key, s)
    requires Routing.Agreed(c, ServersOf(s), key) && from in s && key != "" && AtOwner(c, s, key) && Held(s, key)
    ensures q in members && key in s0[q].store
    ensures Routing.HandleGet(c, ServersOf(s), from, key) == Routing.Found(s0[q].store[key].value)
  {
    KeptTransferable(c, members, joiners, s0, key, s);
    var n := OwnerAnswers(c, s, key, from);
    q := FromMember(c, members, s0, key, n, s[n]);
  }

  lemma FromMember(c: Config, members: set<string>, s0: Cluster, key: string, n: string, nd: Node) returns (q: string)
    requires Keeps(c, members, s0, key, n, nd) && key in nd.store
    ensures q in members && q in s0 && key in s0[q].store && s0[q].store[key] == nd.store[key]
  {
    q :| q in members && q in s0 && key in s0[q].store && s0[q].store[key] == nd.store[key];
  }

  /** After undisturbed joins of any number of nodes, a key from before can be
      read at every node, the joiners included, with a value it had, if it has
      one nearest node and had at most one joiner as near as its home. Where only
      one member had it, there is only one such value. */
  lemma JoinsLoseNothing(
      c: Config, members: set<string>, joiners: set<string>, s0: Cluster, steps: seq<Step>, p: string, key: string,
      from: string)
    requires Gathering(c, members, joiners, s0) && p in members && key in s0[p].store && from in members + joiners
    requires OneNearest(c, members + joiners, c.sum64(key)) && AtMostOneRival(c, joiners, p, key)
    requires Legal(c, s0, steps) && AllUndisturbed(steps) && Over(members + joiners, Run(c, s0, steps))
    ensures exists q :: q in members && key in s0[q].store
              && Routing.HandleGet(c, ServersOf(Run(c, s0, steps)), from, key) == Routing.Found(s0[q].store[key].value)
  {
    HolderIsNearest(c, members, p, s0[p], key);
    EndAgrees(c, members, joiners, s0, steps, key);
    KeyPlaced(c, members, joiners, s0, steps, p, key);
    var q := OldValueAnswers(c, members, joiners, s0, Run(c, s0, steps), key, from);
  }
}
