/** What the next join does to keys that were left at the wrong node: every
    member goes over its store again, and hands over whatever it does not own. */
module Repair {
  import opened Values
  import opened HashRing
  import opened Grpc
  import opened RingTheory
  import opened Protocol
  import opened Pools
  import opened Joins

  /** No loop is running, everybody knows everybody, and remote nodes would
      accept whatever is stored, wherever that is. */
  ghost predicate Rested(c: Config, names: set<string>, s: Cluster) {
    Inv(c, names, s) && Over(names, s) && PoolsFollow(s) && AllTransferable(s)
  }

  ghost predicate AllTransferable(s: Cluster) {
    forall n :: n in s ==> forall k :: k in s[n].store ==> Transferable(s[n].store[k])
  }

  // ----- joins come to rest, whatever they misplace

  lemma StepTransferable(c: Config, s: Cluster, step: Step)
    requires Proper(s, step) && Undisturbed(step) && AllTransferable(s)
    ensures AllTransferable(Apply(c, s, step))
  {
    Effect(c, s, step);
    if step.Deliver? {
      AcceptsIff(s[step.at].task.pair);
    }
  }

  lemma RunTransferable(c: Config, names: set<string>, s: Cluster, steps: seq<Step>)
    requires Inv(c, names, s) && Legal(c, s, steps) && AllUndisturbed(steps) && AllTransferable(s)
    ensures AllTransferable(Run(c, s, steps))
  {
    var inv := (t: Cluster) => Inv(c, names, t) && AllTransferable(t);
    forall t: Cluster, step | inv(t) && Enabled(t, step) && Undisturbed(step)
      ensures inv(Apply(c, t, step))
    {
      InvProper(c, names, t, step);
      StepInv(c, names, t, step);
      StepTransferable(c, t, step);
    }
    RunKeeps(c, s, steps, Undisturbed, inv);
  }

  lemma GatheringTransferable(c: Config, members: set<string>, joiners: set<string>, s0: Cluster)
    requires Gathering(c, members, joiners, s0)
    ensures AllTransferable(s0)
  {
    forall n, k | n in s0 && k in s0[n].store
      ensures Transferable(s0[n].store[k])
    {
      assert n in members && SettledNode(c, members, n, s0[n]);
    }
  }

  /** Any joins of a settled cluster come to rest. */
  lemma JoinsRest(c: Config, members: set<string>, joiners: set<string>, s0: Cluster, steps: seq<Step>)
    requires Gathering(c, members, joiners, s0) && Legal(c, s0, steps) && AllUndisturbed(steps)
    requires Over(members + joiners, Run(c, s0, steps))
    ensures Rested(c, members + joiners, Run(c, s0, steps))
  {
    GatheringInv(c, members, joiners, s0);
    RunInv(c, members + joiners, s0, steps);
    GatheringPools(c, members, joiners, s0, steps);
    GatheringTransferable(c, members, joiners, s0);
    RunTransferable(c, members + joiners, s0, steps);
  }

  // ----- the next join

  /** A node of old knows all the others, and does nothing before it knows `x`. */
  ghost predicate Awaits(names: set<string>, x: string, n: string, nd: Node) {
    n != x ==> names <= Elements(nd.view.nodes) && (x !in nd.view.nodes ==> nd.task.Idle?)
  }

  /** The key is on its way to `o`, and is not left at `x` on the way. */
  ghost predicate Returning(
      c: Config, names: set<string>, o: string, x: string, k: string, cells: set<Cell>, s: Cluster) {
    && Inv(c, names + {x}, s) && OnItsWay(o, x, k, cells, s)
    && (forall n :: n in s ==> Awaits(names, x, n, s[n])) && x in s && (k in s[x].store ==> x == o)
  }

  lemma OnlyOwner(c: Config, names: set<string>, view: RingState, o: string, h: Hash)
    requires WellFormed(c, view) && c.Count() > 0 && o in view.nodes && Elements(view.nodes) <= names
    requires NearestIn(c, names, h, o) && OneNearest(c, names, h)
    ensures Owner(view.ring, h) == o
  {
    OwnerHasLeastRank(c, view, h);
    assert Owner(view.ring, h) in Elements(view.nodes);
    assert NearestIn(c, names, h, Owner(view.ring, h));
  }

  lemma ActorKnows(c: Config, names: set<string>, o: string, x: string, k: string, n: string, nd: Node, step: Step)
    requires NodeInv(c, names + {x}, n, nd) && Awaits(names, x, n, nd) && c.Count() > 0
    requires o in names + {x} && step.at == n && Ready(nd, step) && (step.Join? ==> step.who != "")
    requires NearestIn(c, names + {x}, c.sum64(k), o) && OneNearest(c, names + {x}, c.sum64(k))
    requires n == x && k in nd.store ==> x == o
    ensures Informed(c, o, x, k, n, nd, step)
  {
    if step.Visit? && step.key in nd.store {
      OwnerKnown(c, nd.view, nd.store[step.key].hash);
      if step.key == k {
        assert o in Elements(nd.view.nodes);
        OnlyOwner(c, names + {x}, nd.view, o, c.sum64(k));
      }
    }
  }

  lemma NodeAwaits(c: Config, names: set<string>, s: Cluster, step: Step, x: string, n: string)
    requires Proper(s, step) && Undisturbed(step) && n in s && x in s
    requires Awaits(names, x, n, s[n]) && (step.Join? && step.at == n ==> names + {x} == s.Keys)
    ensures Awaits(names, x, n, Apply(c, s, step)[n])
  {
    Effect(c, s, step);
    if step.Join? && step.at == n {
      assert Elements(s[n].view.nodes + [step.who]) == Elements(s[n].view.nodes) + {step.who};
      assert step.who !in Elements(s[n].view.nodes);
    }
  }

  lemma StepReturns(
      c: Config, names: set<string>, s: Cluster, step: Step, o: string, x: string, k: string, cells: set<Cell>)
    requires Returning(c, names, o, x, k, cells, s) && Enabled(s, step) && Undisturbed(step) && c.Count() > 0
    requires NearestIn(c, names + {x}, c.sum64(k), o) && OneNearest(c, names + {x}, c.sum64(k))
    ensures Returning(c, names, o, x, k, cells, Apply(c, s, step))
  {
    InvProper(c, names + {x}, s, step);
    assert NodeInv(c, names + {x}, step.at, s[step.at]);
    ActorKnows(c, names, o, x, k, step.at, s[step.at], step);
    StepCarries(c, s, step, o, x, k, cells);
    CopiesMove(c, s, step, o, x, k, cells);
    forall n | n in s
      ensures Awaits(names, x, n, Apply(c, s, step)[n])
    {
      NodeAwaits(c, names, s, step, x, n);
    }
    StepInv(c, names + {x}, s, step);
  }

  lemma RunReturns(
      c: Config, names: set<string>, s: Cluster, steps: seq<Step>, o: string, x: string, k: string, cells: set<Cell>)
    requires Returning(c, names, o, x, k, cells, s) && c.Count() > 0
    requires NearestIn(c, names + {x}, c.sum64(k), o) && OneNearest(c, names + {x}, c.sum64(k))
    requires Legal(c, s, steps) && AllUndisturbed(steps)
    ensures Returning(c, names, o, x, k, cells, Run(c, s, steps))
  {
    var inv := (t: Cluster) => Returning(c, names, o, x, k, cells, t);
    forall t: Cluster, step | inv(t) && Enabled(t, step) && Undisturbed(step)
      ensures inv(Apply(c, t, step))
    {
      StepReturns(c, names, t, step, o, x, k, cells);
    }
    RunKeeps(c, s, steps, Undisturbed, inv);
  }

  // ----- from beginning to end

  function With(c: Config, s: Cluster, x: string): Cluster {
    s + Start(c, {x})
  }

  ghost function Copies(s: Cluster, k: string): set<Cell> {
    set n | n in s && k in s[n].store :: s[n].store[k]
  }

  lemma NewcomerNode(c: Config, names: set<string>, x: string)
    requires x != ""
    ensures NodeInv(c, names + {x}, x, Start(c, {x})[x])
  {
    StartNodeInv(c, {x}, x);
    MoreNames(c, {x}, names + {x}, x, Start(c, {x})[x]);
  }

  lemma NodeWith(c: Config, names: set<string>, s0: Cluster, x: string, n: string)
    requires Inv(c, names, s0) && x !in names && x != "" && n in With(c, s0, x)
    ensures NodeInv(c, names + {x}, n, With(c, s0, x)[n])
  {
    if n == x {
      NewcomerNode(c, names, x);
    } else {
      MoreNames(c, names, names + {x}, n, s0[n]);
    }
  }

  lemma BrokenNode(c: Config, names: set<string>, s: Cluster) returns (n: string)
    requires s.Keys == names && "" !in names && !Inv(c, names, s)
    ensures n in s && !NodeInv(c, names, n, s[n])
  {
    n :| n in s && !NodeInv(c, names, n, s[n]);
  }

  lemma NewcomerInv(c: Config, names: set<string>, s0: Cluster, x: string)
    requires Inv(c, names, s0) && x !in names && x != ""
    ensures Inv(c, names + {x}, With(c, s0, x))
  {
    if !Inv(c, names + {x}, With(c, s0, x)) {
      var n := BrokenNode(c, names + {x}, With(c, s0, x));
      NodeWith(c, names, s0, x, n);
    }
  }

  lemma OldCarries(
      c: Config, names: set<string>, n: string, nd: Node, o: string, x: string, k: string, cells: set<Cell>,
      arrived: bool)
    requires NodeInv(c, names, n, nd) && nd.task.Idle? && PoolFollowsView(n, nd) && x !in names
    requires forall j :: j in nd.store ==> Transferable(nd.store[j])
    requires k in nd.store ==> nd.store[k] in cells
    ensures Carries(n, nd, o, x, k, cells, arrived)
  {
    assert x !in Elements(nd.view.nodes);
  }

  lemma NodeBegins(c: Config, names: set<string>, s0: Cluster, x: string, k: string, o: string, n: string)
    requires Rested(c, names, s0) && x !in names && o in names + {x} && n in With(c, s0, x)
    ensures Carries(n, With(c, s0, x)[n], o, x, k, Copies(s0, k), k in With(c, s0, x)[o].store)
    ensures Awaits(names, x, n, With(c, s0, x)[n])
  {
    if n != x {
      OldCarries(c, names, n, s0[n], o, x, k, Copies(s0, k), k in With(c, s0, x)[o].store);
    }
  }

  lemma CopiesAre(s0: Cluster, k: string)
    requires AllTransferable(s0)
    ensures forall cell :: cell in Copies(s0, k) ==> Transferable(cell)
  {
  }

  lemma StillHeld(c: Config, s0: Cluster, x: string, k: string)
    requires Held(s0, k) && x !in s0
    ensures Held(With(c, s0, x), k)
  {
    var n :| n in s0 && k in s0[n].store;
    assert n in With(c, s0, x) && k in With(c, s0, x)[n].store;
  }

  lemma NodesBegin(c: Config, names: set<string>, s0: Cluster, x: string, k: string, o: string)
    requires Rested(c, names, s0) && x !in names && o in names + {x}
    ensures forall n :: n in With(c, s0, x) ==>
              Carries(n, With(c, s0, x)[n], o, x, k, Copies(s0, k), k in With(c, s0, x)[o].store)
  {
    forall n | n in With(c, s0, x)
      ensures Carries(n, With(c, s0, x)[n], o, x, k, Copies(s0, k), k in With(c, s0, x)[o].store)
    {
      NodeBegins(c, names, s0, x, k, o, n);
    }
  }

  lemma BeginsToReturn(c: Config, names: set<string>, s0: Cluster, x: string, k: string, o: string)
    requires Rested(c, names, s0) && x !in names && Held(s0, k) && o in names + {x}
    ensures OnItsWay(o, x, k, Copies(s0, k), With(c, s0, x))
  {
    CopiesAre(s0, k);
    StillHeld(c, s0, x, k);
    NodesBegin(c, names, s0, x, k, o);
  }

  lemma StartsToReturn(c: Config, names: set<string>, s0: Cluster, x: string, k: string, o: string)
    requires Rested(c, names, s0) && x !in names && x != "" && Held(s0, k) && o in names + {x}
    ensures Returning(c, names, o, x, k, Copies(s0, k), With(c, s0, x))
  {
    NewcomerInv(c, names, s0, x);
    BeginsToReturn(c, names, s0, x, k, o);
    forall n | n in With(c, s0, x)
      ensures Awaits(names, x, n, With(c, s0, x)[n])
    {
      NodeBegins(c, names, s0, x, k, o, n);
    }
  }

  lemma OverKnows(names: set<string>, s: Cluster, x: string)
    requires Over(names, s) && x in names
    ensures forall n :: n in s ==> s[n].task.Idle? && x in s[n].view.nodes
  {
    assert forall n :: n in s ==> x in Elements(s[n].view.nodes);
  }

  /** What the node has of the key in the end, and whom it takes for the owner. */
  ghost predicate Back(c: Config, o: string, k: string, cells: set<Cell>, n: string, nd: Node) {
    && (k in nd.store <==> n == o) && Owner(nd.view.ring, c.sum64(k)) == o
    && (k in nd.store ==> nd.store[k] in cells)
  }

  ghost predicate AllBack(c: Config, o: string, k: string, cells: set<Cell>, s: Cluster) {
    o in s && forall n :: n in s ==> Back(c, o, k, cells, n, s[n])
  }

  lemma ReturnedNode(
      c: Config, names: set<string>, o: string, x: string, k: string, cells: set<Cell>, s: Cluster, n: string)
    requires OnItsWay(o, x, k, cells, s) && Over(names + {x}, s) && c.Count() > 0 && n in s
    requires NodeInv(c, names + {x}, n, s[n])
    requires NearestIn(c, names + {x}, c.sum64(k), o) && OneNearest(c, names + {x}, c.sum64(k))
    ensures Back(c, o, k, cells, n, s[n])
  {
    OverKnows(names + {x}, s, x);
    LastCopy(s, o, x, k, cells, n);
    assert o in Elements(s[n].view.nodes);
    OnlyOwner(c, names + {x}, s[n].view, o, c.sum64(k));
  }

  lemma AllReturned(
      c: Config, names: set<string>, o: string, x: string, k: string, cells: set<Cell>, s: Cluster)
    requires Returning(c, names, o, x, k, cells, s) && Over(names + {x}, s) && c.Count() > 0
    requires NearestIn(c, names + {x}, c.sum64(k), o) && OneNearest(c, names + {x}, c.sum64(k))
    ensures AllBack(c, o, k, cells, s)
  {
    forall n | n in s
      ensures Back(c, o, k, cells, n, s[n])
    {
      ReturnedNode(c, names, o, x, k, cells, s, n);
    }
  }

  lemma BackAtOwner(c: Config, o: string, k: string, cells: set<Cell>, s: Cluster)
    requires AllBack(c, o, k, cells, s)
    ensures AtOwner(c, s, k) && Held(s, k) && forall n :: n in s && k in s[n].store ==> s[n].store[k] in cells
  {
    assert Back(c, o, k, cells, o, s[o]);
  }

  lemma NearestNode(c: Config, names: set<string>, h: Hash, n: string) returns (o: string)
    requires n in names
    ensures NearestIn(c, names, h, o)
  {
    o := n;
    var rest := names;
    while rest != {}
      invariant rest <= names && o in names && forall m :: m in names - rest ==> Rank(c, o, h) <= Rank(c, m, h)
      decreases |rest|
    {
      var m :| m in rest;
      if Rank(c, m, h) < Rank(c, o, h) {
        o := m;
      }
      rest := rest - {m};
    }
  }

  lemma KeyReturns(
      c: Config, names: set<string>, s0: Cluster, x: string, steps: seq<Step>, k: string, o: string)
    requires Rested(c, names, s0) && x !in names && x != "" && c.Count() > 0 && Held(s0, k)
    requires NearestIn(c, names + {x}, c.sum64(k), o) && OneNearest(c, names + {x}, c.sum64(k))
    requires Legal(c, With(c, s0, x), steps) && AllUndisturbed(steps)
    requires Over(names + {x}, Run(c, With(c, s0, x), steps))
    ensures AllBack(c, o, k, Copies(s0, k), Run(c, With(c, s0, x), steps))
  {
    StartsToReturn(c, names, s0, x, k, o);
    RunReturns(c, names, With(c, s0, x), steps, o, x, k, Copies(s0, k));
    AllReturned(c, names, o, x, k, Copies(s0, k), Run(c, With(c, s0, x), steps));
  }

  /** A single node joins a cluster at rest, in which keys may be anywhere, at
      several nodes, and with different cells. However that join goes, in the end
      every key that has one nearest node is at its owner, with one of the cells
      it had. */
  lemma NextJoinRepairs(c: Config, names: set<string>, s0: Cluster, x: string, steps: seq<Step>, k: string)
    requires Rested(c, names, s0) && x !in names && x != "" && c.Count() > 0
    requires Held(s0, k) && OneNearest(c, names + {x}, c.sum64(k))
    requires Legal(c, With(c, s0, x), steps) && AllUndisturbed(steps)
    requires Over(names + {x}, Run(c, With(c, s0, x), steps))
    ensures var s := Run(c, With(c, s0, x), steps);
            AtOwner(c, s, k) && Held(s, k) && forall n :: n in s && k in s[n].store ==> s[n].store[k] in Copies(s0, k)
  {
    var o := NearestNode(c, names + {x}, c.sum64(k), x);
    KeyReturns(c, names, s0, x, steps, k, o);
    BackAtOwner(c, o, k, Copies(s0, k), Run(c, With(c, s0, x), steps));
  }

  // ----- the whole cluster

  /** What is stored in the end was stored before. */
  lemma HeldBefore(c: Config, names: set<string>, s0: Cluster, x: string, steps: seq<Step>, k: string)
    requires Rested(c, names, s0) && x !in names && x != ""
    requires Legal(c, With(c, s0, x), steps) && AllUndisturbed(steps) && Held(Run(c, With(c, s0, x), steps), k)
    ensures Held(s0, k)
  {
    if !Held(s0, k) {
      NewcomerInv(c, names, s0, x);
      NowhereWith(c, names, s0, x, k);
      RunNowhere(c, names + {x}, With(c, s0, x), steps, k);
    }
  }

  lemma NowhereWith(c: Config, names: set<string>, s0: Cluster, x: string, k: string)
    requires Over(names, s0) && !Held(s0, k) && x !in s0
    ensures Nowhere(k, With(c, s0, x))
  {
  }

  lemma NewcomerFollows(c: Config, s0: Cluster, x: string)
    requires PoolsFollow(s0) && AllTransferable(s0) && x !in s0
    ensures PoolsFollow(With(c, s0, x)) && AllTransferable(With(c, s0, x))
  {
    StartPoolsFollowViews(c, {x}, x);
  }

  lemma KeptInTheEnd(c: Config, names: set<string>, s0: Cluster, x: string, steps: seq<Step>, s: Cluster, n: string)
    requires Rested(c, names, s0) && x !in names && x != ""
    requires Legal(c, With(c, s0, x), steps) && AllUndisturbed(steps) && s == Run(c, With(c, s0, x), steps) && n in s
    ensures NodeInv(c, names + {x}, n, s[n]) && PoolFollowsView(n, s[n])
    ensures forall k :: k in s[n].store ==> Transferable(s[n].store[k])
  {
    NewcomerInv(c, names, s0, x);
    NewcomerFollows(c, s0, x);
    RunInv(c, names + {x}, With(c, s0, x), steps);
    RunPoolsFollow(c, names + {x}, With(c, s0, x), steps);
    RunTransferable(c, names + {x}, With(c, s0, x), steps);
  }

  /** Every key that is stored has one nearest node. */
  ghost predicate KeysOneNearest(c: Config, names: set<string>, s: Cluster) {
    forall n :: n in s ==> forall k :: k in s[n].store ==> OneNearest(c, names, c.sum64(k))
  }

  lemma OwnedInTheEnd(
      c: Config, names: set<string>, s0: Cluster, x: string, steps: seq<Step>, s: Cluster, n: string, k: string)
    requires Rested(c, names, s0) && x !in names && x != "" && c.Count() > 0
    requires KeysOneNearest(c, names + {x}, s0)
    requires Legal(c, With(c, s0, x), steps) && AllUndisturbed(steps) && s == Run(c, With(c, s0, x), steps)
    requires Over(names + {x}, s) && n in s && k in s[n].store
    ensures Owner(s[n].view.ring, c.sum64(k)) == n
  {
    HeldBefore(c, names, s0, x, steps, k);
    NextJoinRepairs(c, names, s0, x, steps, k);
  }

  /** The next join, in a cluster at rest all of whose keys have one nearest node. */
  ghost predicate NextJoin(c: Config, names: set<string>, s0: Cluster, x: string, steps: seq<Step>) {
    && Rested(c, names, s0) && x !in names && x != "" && c.Count() > 0 && KeysOneNearest(c, names + {x}, s0)
    && Legal(c, With(c, s0, x), steps) && AllUndisturbed(steps) && Over(names + {x}, Run(c, With(c, s0, x), steps))
  }

  lemma NodeResettles(c: Config, names: set<string>, s0: Cluster, x: string, steps: seq<Step>, n: string)
    requires NextJoin(c, names, s0, x, steps) && n in names + {x}
    ensures SettledNode(c, names + {x}, n, Run(c, With(c, s0, x), steps)[n])
  {
    var s := Run(c, With(c, s0, x), steps);
    KeptInTheEnd(c, names, s0, x, steps, s, n);
    forall k | k in s[n].store
      ensures Owner(s[n].view.ring, c.sum64(k)) == n
    {
      OwnedInTheEnd(c, names, s0, x, steps, s, n, k);
    }
  }

  lemma UnsettledNode(c: Config, names: set<string>, s: Cluster) returns (n: string)
    requires s.Keys == names && "" !in names && !Settled(c, names, s)
    ensures n in s && !SettledNode(c, names, n, s[n])
  {
    n :| n in s && !SettledNode(c, names, n, s[n]);
  }

  /** So one more join, at a time when all others are over, puts everything that
      earlier joins left somewhere in its place: the cluster is settled. */
  lemma NextJoinSettles(c: Config, names: set<string>, s0: Cluster, x: string, steps: seq<Step>)
    requires NextJoin(c, names, s0, x, steps)
    ensures Settled(c, names + {x}, Run(c, With(c, s0, x), steps))
  {
    if !Settled(c, names + {x}, Run(c, With(c, s0, x), steps)) {
      var n := UnsettledNode(c, names + {x}, Run(c, With(c, s0, x), steps));
      NodeResettles(c, names, s0, x, steps, n);
    }
  }
}
