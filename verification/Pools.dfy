/** The connection pools follow the views of the membership. */
module Pools {
  import opened Values
  import opened HashRing
  import opened RingTheory
  import opened Protocol

  /** The event comes with an address to connect to. */
  predicate Addressed(step: Step) {
    step.Join? ==>
      match step.meta
      case Parsed(addr) => addr != ""
      case Unparsable(fallback) => fallback != ""
  }

  ghost predicate PoolFollowsView(n: string, nd: Node) {
    nd.pool.Keys == Elements(nd.view.nodes) - {n}
  }

  lemma LocalPoolFollowsView(c: Config, nd: Node, step: Step)
    requires Ready(nd, step) && Addressed(step) && (step.Join? ==> step.who != "")
    requires PoolFollowsView(step.at, nd)
    ensures PoolFollowsView(step.at, Local(c, nd, step))
  {
    if step.Join? {
      assert Elements(nd.view.nodes + [step.who]) == Elements(nd.view.nodes) + {step.who};
    } else if step.Leave? {
      forall n
        ensures n in Remove(nd.view, step.who).nodes <==> n in nd.view.nodes && n != step.who
      {
        FilterMembers(nd.view.nodes, IsName(step.who), n);
      }
      assert Elements(Remove(nd.view, step.who).nodes) == Elements(nd.view.nodes) - {step.who};
    }
  }

  ghost predicate PoolsFollow(s: Cluster) {
    forall n :: n in s ==> PoolFollowsView(n, s[n])
  }

  lemma StepPoolsFollow(c: Config, names: set<string>, s: Cluster, step: Step)
    requires Proper(s, step) && s.Keys == names && "" !in names && Addressed(step) && PoolsFollow(s)
    ensures PoolsFollow(Apply(c, s, step))
  {
    Effect(c, s, step);
    LocalPoolFollowsView(c, s[step.at], step);
  }

  lemma {:induction false} RunPoolsFollow(c: Config, names: set<string>, s: Cluster, steps: seq<Step>)
    requires Inv(c, names, s) && Legal(c, s, steps) && forall i :: 0 <= i < |steps| ==> Addressed(steps[i])
    requires PoolsFollow(s)
    ensures PoolsFollow(Run(c, s, steps))
    decreases |steps|
  {
    if steps != [] {
      InvProper(c, names, s, steps[0]);
      StepInv(c, names, s, steps[0]);
      StepPoolsFollow(c, names, s, steps[0]);
      RunPoolsFollow(c, names, Apply(c, s, steps[0]), steps[1..]);
    }
  }

  lemma StartPoolsFollowViews(c: Config, names: set<string>, n: string)
    requires n in names
    ensures PoolFollowsView(n, Start(c, names)[n])
  {
    assert Elements([n]) == {n};
  }

  /** Over every run of events with addresses, each node's pool has exactly the
      other nodes of its ring. */
  lemma PoolsFollowViews(c: Config, names: set<string>, steps: seq<Step>)
    requires "" !in names && Legal(c, Start(c, names), steps)
    requires forall i :: 0 <= i < |steps| ==> Addressed(steps[i])
    ensures PoolsFollow(Run(c, Start(c, names), steps))
  {
    StartInv(c, names);
    forall n | n in names
      ensures PoolFollowsView(n, Start(c, names)[n])
    {
      StartPoolsFollowViews(c, names, n);
    }
    RunPoolsFollow(c, names, Start(c, names), steps);
  }

  /** So a remote owner is always found in the pool. */
  lemma RemoteOwnerInPool(c: Config, n: string, nd: Node, h: Hash)
    requires WellFormed(c, nd.view) && c.Count() > 0 && nd.view.nodes != [] && PoolFollowsView(n, nd)
    ensures Owner(nd.view.ring, h) == n || Owner(nd.view.ring, h) in nd.pool
  {
    OwnerHasLeastRank(c, nd.view, h);
    assert Owner(nd.view.ring, h) in Elements(nd.view.nodes);
  }
}
