/** Joins and leaves over time: a cluster that is settled stays so, one event
    after the other. */
module Membership {
  import opened Values
  import opened HashRing
  import opened RingTheory
  import opened Protocol
  import opened Joins

  // ----- leaves

  predicate LeaveOf(x: string, step: Step) {
    step.Leave? && step.who == x
  }

  /** Some of the other nodes have heard that `x` left, and nothing else has happened. */
  ghost predicate Hearing(s: Cluster, x: string, t: Cluster) {
    && t.Keys == s.Keys
    && forall n :: n in s ==> t[n] == s[n] || (n != x && t[n] == NotifyLeave(s[n], x))
  }

  lemma HearsLeave(c: Config, s: Cluster, x: string, t: Cluster, step: Step)
    requires Hearing(s, x, t) && Enabled(t, step) && LeaveOf(x, step)
    ensures Hearing(s, x, Apply(c, t, step))
  {
    FilterMembers(s[step.at].view.nodes, IsName(x), x);
    Effect(c, t, step);
  }

  lemma LeaveRun(c: Config, s: Cluster, x: string, steps: seq<Step>)
    requires Legal(c, s, steps) && forall i :: 0 <= i < |steps| ==> LeaveOf(x, steps[i])
    ensures Hearing(s, x, Run(c, s, steps))
  {
    var inv := (t: Cluster) => Hearing(s, x, t);
    forall t: Cluster, step | inv(t) && Enabled(t, step) && LeaveOf(x, step)
      ensures inv(Apply(c, t, step))
    {
      HearsLeave(c, s, x, t, step);
    }
    RunKeeps(c, s, steps, step => LeaveOf(x, step), inv);
  }

  lemma KeptAfterLeave(c: Config, names: set<string>, n: string, nd: Node, x: string, k: string)
    requires SettledNode(c, names, n, nd) && n != x && k in nd.store
    ensures Owner(Remove(nd.view, x).ring, nd.store[k].hash) == n
  {
    RemoveMovesOnlyTheRemovedNodesHashes(c, nd.view, x, nd.store[k].hash);
  }

  lemma NodeAfterLeave(c: Config, names: set<string>, n: string, nd: Node, x: string)
    requires SettledNode(c, names, n, nd) && n in names && x in names && n != x
    ensures SettledNode(c, names - {x}, n, NotifyLeave(nd, x))
  {
    forall k | k in nd.store
      ensures Owner(Remove(nd.view, x).ring, nd.store[k].hash) == n
    {
      KeptAfterLeave(c, names, n, nd, x, k);
    }
    NotifyLeaveInv(c, names, n, nd, x);
    assert Elements(Remove(nd.view, x).nodes) == names - {x} by { RemoveWellFormed(c, nd.view, x); }
  }

  lemma MemberAfterLeave(c: Config, names: set<string>, s: Cluster, x: string, t: Cluster, n: string)
    requires Settled(c, names, s) && x in names && Hearing(s, x, t) && n in s && n != x && x !in t[n].view.nodes
    ensures SettledNode(c, names - {x}, n, t[n]) && t[n].store == s[n].store
  {
    assert SettledNode(c, names, n, s[n]) && x in Elements(s[n].view.nodes);
    NodeAfterLeave(c, names, n, s[n], x);
  }

  /** Once all others have heard that `x` left, in whatever order, the rest of a
      settled cluster is settled: nothing has moved, and what the remaining nodes
      hold is still their own, ties included. What `x` held is gone with it. */
  lemma LeaveKeepsSettled(c: Config, names: set<string>, s: Cluster, x: string, steps: seq<Step>)
    requires Settled(c, names, s) && x in names && Legal(c, s, steps)
    requires forall i :: 0 <= i < |steps| ==> LeaveOf(x, steps[i])
    requires forall n :: n in s && n != x ==> x !in Run(c, s, steps)[n].view.nodes
    ensures Settled(c, names - {x}, Run(c, s, steps) - {x})
    ensures forall n :: n in names - {x} ==> Run(c, s, steps)[n].store == s[n].store
  {
    LeaveRun(c, s, x, steps);
    forall n | n in s && n != x
      ensures SettledNode(c, names - {x}, n, Run(c, s, steps)[n]) && Run(c, s, steps)[n].store == s[n].store
    {
      MemberAfterLeave(c, names, s, x, Run(c, s, steps), n);
    }
  }

  // ----- joins

  /** A settled cluster and any number of fresh nodes are ready to join. */
  lemma NextJoinsBegin(c: Config, names: set<string>, s: Cluster, joiners: set<string>)
    requires Settled(c, names, s) && names !! joiners && "" !in joiners
    ensures Gathering(c, names, joiners, s + Start(c, joiners))
  {
  }

  /** So is a single node that has just started, a settled cluster of its own. */
  lemma FirstNodeSettled(c: Config, n: string)
    requires n != ""
    ensures Settled(c, {n}, Start(c, {n}))
  {
    FirstNodeAlone(c, n);
  }

  lemma FirstNodeAlone(c: Config, n: string)
    requires n != ""
    ensures SettledNode(c, {n}, n, Start(c, {n})[n])
  {
    StartNodeInv(c, {n}, n);
    var nd := Start(c, {n})[n];
    assert Elements([n]) == {n};
    assert nd.view.nodes == [n] && nd.pool.Keys == {} && nd.store == map[];
  }
}
