/** How joins at the same time keep a key from its owner. */
module Misplacement {
  import opened Values
  import opened HashRing
  import opened RingTheory
  import opened Protocol
  import opened Joins
  import opened JoinProgress

  /** A joiner as near to the key as the member `a` that has it. */
  ghost predicate Rival(c: Config, joiners: set<string>, a: string, k: string, j: string) {
    j in joiners && Rank(c, j, c.sum64(k)) <= Rank(c, a, c.sum64(k))
  }

  // ----- one node hears of everybody first

  /** While `m` has nothing, its steps change nothing for the others. */
  ghost predicate Quiet(s0: Cluster, m: string, s: Cluster) {
    && s.Keys == s0.Keys && m in s && s[m].store == map[] && (s[m].task.Idle? || s[m].task.Scanning?)
    && forall n :: n in s && n != m ==> s[n] == s0[n]
  }

  lemma StaysQuiet(c: Config, s0: Cluster, s: Cluster, m: string, steps: seq<Step>)
    requires Quiet(s0, m, s) && Legal(c, s, steps) && AllBy(m, steps)
    ensures Quiet(s0, m, Run(c, s, steps))
  {
    RunKeeps(c, s, steps, step => By(m, step), t => Quiet(s0, m, t));
  }

  lemma HearsFirst(c: Config, members: set<string>, joiners: set<string>, s0: Cluster, m: string)
    returns (steps: seq<Step>, s: Cluster)
    requires Gathering(c, members, joiners, s0) && m in joiners
    ensures Leads(c, s0, steps, s) && Inv(c, members + joiners, s) && Quiet(s0, m, s)
    ensures s[m].task.Idle? && Elements(s[m].view.nodes) == members + joiners
  {
    var good := (t: Cluster) => Inv(c, members + joiners, t);
    InvIsSound(c, members + joiners, good);
    GatheringInv(c, members, joiners, s0);
    steps, s := HearAll(c, good, s0, m);
    StaysQuiet(c, s0, s0, m, steps);
  }

  // ----- then another one hands over to it

  /** The key, if it is at `a`, is on its way to `m`, and `a` knows none nearer than that. */
  ghost predicate HandingOver(
      c: Config, names: set<string>, a: string, m: string, k: string, cells: set<Cell>, s: Cluster) {
    && Inv(c, names, s) && OnItsWay(m, m, k, cells, s) && a in s && Finds(a, m, c.sum64(k), s[a].view)
    && (k in s[a].store || k in s[m].store)
  }

  /** The next step of `a`: one of its loop, or it hears of `m`. */
  predicate TowardsHandOver(a: string, m: string, step: Step) {
    step.at == a && Undisturbed(step) && (step.Join? ==> step.who == m)
  }

  lemma StillAround(
      c: Config, s: Cluster, step: Step, a: string, m: string, k: string, cells: set<Cell>)
    requires OnItsWay(m, m, k, cells, s) && Proper(s, step) && Undisturbed(step) && a in s
    requires k in s[a].store || k in s[m].store
    ensures k in Apply(c, s, step)[a].store || k in Apply(c, s, step)[m].store
  {
    Effect(c, s, step);
    assert Carries(step.at, s[step.at], m, m, k, cells, k in s[m].store);
    assert Carries(m, s[m], m, m, k, cells, k in s[m].store);
  }

  lemma StillFinds(c: Config, names: set<string>, s: Cluster, step: Step, a: string, m: string, h: Hash)
    requires Inv(c, names, s) && Enabled(s, step) && TowardsHandOver(a, m, step) && c.Count() > 0
    requires Finds(a, m, h, s[a].view) && Rank(c, m, h) <= Rank(c, a, h)
    ensures Finds(a, m, h, Apply(c, s, step)[a].view)
  {
    InvProper(c, names, s, step);
    ViewAfter(c, s, step, a);
    if step.Join? {
      JoinFinds(c, s[a].view, m, a, m, h);
    }
  }

  lemma HandsOver(
      c: Config, names: set<string>, a: string, m: string, k: string, cells: set<Cell>, s: Cluster, step: Step)
    requires HandingOver(c, names, a, m, k, cells, s) && Enabled(s, step) && TowardsHandOver(a, m, step)
    requires c.Count() > 0 && Rank(c, m, c.sum64(k)) <= Rank(c, a, c.sum64(k))
    ensures HandingOver(c, names, a, m, k, cells, Apply(c, s, step))
  {
    InvProper(c, names, s, step);
    ActorInformed(c, names, a, m, k, s, step);
    StepCarries(c, s, step, m, m, k, cells);
    StillAround(c, s, step, a, m, k, cells);
    StillFinds(c, names, s, step, a, m, c.sum64(k));
    StepInv(c, names, s, step);
  }

  lemma ActorInformed(c: Config, names: set<string>, a: string, m: string, k: string, s: Cluster, step: Step)
    requires Inv(c, names, s) && Enabled(s, step) && step.at == a && Finds(a, m, c.sum64(k), s[a].view)
    requires c.Count() > 0
    ensures Informed(c, m, m, k, a, s[a], step)
  {
    assert NodeInv(c, names, a, s[a]);
    InformedBy(c, names, m, k, a, s[a], step);
  }

  lemma KeepsHandingOver(
      c: Config, names: set<string>, a: string, m: string, k: string, cells: set<Cell>, s: Cluster, steps: seq<Step>)
    requires HandingOver(c, names, a, m, k, cells, s) && Legal(c, s, steps) && AllInLoop(a, steps)
    requires c.Count() > 0 && Rank(c, m, c.sum64(k)) <= Rank(c, a, c.sum64(k))
    ensures HandingOver(c, names, a, m, k, cells, Run(c, s, steps))
  {
    var inv := (t: Cluster) => HandingOver(c, names, a, m, k, cells, t);
    forall t: Cluster, step | inv(t) && Enabled(t, step) && InLoop(a, step)
      ensures inv(Apply(c, t, step))
    {
      HandsOver(c, names, a, m, k, cells, t, step);
    }
    RunKeeps(c, s, steps, step => InLoop(a, step), inv);
  }

  lemma HearsOfOne(c: Config, s: Cluster, a: string, m: string) returns (step: Step)
    requires a in s && m in s && a != m && s[a].task.Idle? && m !in s[a].view.nodes
    ensures step == Join(a, m, Parsed("address")) && Enabled(s, step) && Undisturbed(step)
    ensures Leads(c, s, [step], Apply(c, s, step)) && Spares(s, Apply(c, s, step), {a})
    ensures m in Apply(c, s, step)[a].view.nodes
  {
    step := Join(a, m, Parsed("address"));
    OneStep(c, s, step);
    Effect(c, s, step);
  }

  lemma HandsToOne(
      c: Config, names: set<string>, s: Cluster, a: string, m: string, k: string, cells: set<Cell>)
    returns (steps: seq<Step>, s': Cluster)
    requires HandingOver(c, names, a, m, k, cells, s) && a != m && m in s[a].view.nodes
    requires c.Count() > 0 && Rank(c, m, c.sum64(k)) <= Rank(c, a, c.sum64(k))
    ensures Leads(c, s, steps, s') && Inv(c, names, s') && Spares(s, s', {a}) && k in s'[m].store
  {
    var good := (t: Cluster) => Inv(c, names, t);
    InvIsSound(c, names, good);
    steps, s' := FinishLoop(c, good, s, a);
    KeepsHandingOver(c, names, a, m, k, cells, s, steps);
    HandedOver(s', a, m, k, cells);
  }

  lemma HandedOver(s: Cluster, a: string, m: string, k: string, cells: set<Cell>)
    requires OnItsWay(m, m, k, cells, s) && a in s && a != m && s[a].task.Idle? && m in s[a].view.nodes
    requires k in s[a].store || k in s[m].store
    ensures k in s[m].store
  {
    assert Carries(a, s[a], m, m, k, cells, k in s[m].store);
  }

  lemma PassesOn(
      c: Config, names: set<string>, s: Cluster, a: string, m: string, k: string, cells: set<Cell>)
    returns (steps: seq<Step>, s': Cluster)
    requires HandingOver(c, names, a, m, k, cells, s) && a != m && s[a].task.Idle? && m !in s[a].view.nodes
    requires c.Count() > 0 && Rank(c, m, c.sum64(k)) <= Rank(c, a, c.sum64(k))
    ensures Leads(c, s, steps, s') && Inv(c, names, s') && Spares(s, s', {a}) && k in s'[m].store
  {
    var step := HearsOfOne(c, s, a, m);
    HandsOver(c, names, a, m, k, cells, s, step);
    steps, s' := HandsToOne(c, names, Apply(c, s, step), a, m, k, cells);
    LeadsOn(c, s, [step], Apply(c, s, step), steps, s');
    steps := [step] + steps;
  }

  // ----- from the beginning

  /** The key's cells at the members. */
  ghost function CellsOf(members: set<string>, s0: Cluster, k: string): set<Cell> {
    set n | n in members && n in s0 && k in s0[n].store :: s0[n].store[k]
  }

  /** A key that a member has is on its way to a joiner, which nobody knows yet. */
  lemma SetsOut(c: Config, members: set<string>, joiners: set<string>, s0: Cluster, a: string, k: string, m: string)
    requires Gathering(c, members, joiners, s0) && a in members && k in s0[a].store && m in joiners
    ensures OnItsWay(m, m, k, CellsOf(members, s0, k), s0) && forall n :: n in s0 ==> s0[n].task.Idle?
  {
    CellsTransferable(c, members, joiners, s0, k);
    forall n | n in s0
      ensures Carries(n, s0[n], m, m, k, CellsOf(members, s0, k), k in s0[m].store) && s0[n].task.Idle?
    {
      NodeSetsOut(c, members, joiners, s0, k, m, n);
    }
  }

  lemma CellsTransferable(c: Config, members: set<string>, joiners: set<string>, s0: Cluster, k: string)
    requires Gathering(c, members, joiners, s0)
    ensures forall cell :: cell in CellsOf(members, s0, k) ==> Transferable(cell)
  {
    forall n | n in members && k in s0[n].store
      ensures Transferable(s0[n].store[k])
    {
      assert SettledNode(c, members, n, s0[n]);
    }
  }

  lemma NodeSetsOut(
      c: Config, members: set<string>, joiners: set<string>, s0: Cluster, k: string, m: string, n: string)
    requires Gathering(c, members, joiners, s0) && m in joiners && n in s0
    ensures Carries(n, s0[n], m, m, k, CellsOf(members, s0, k), k in s0[m].store) && s0[n].task.Idle?
  {
    if n in members {
      MemberCarries(c, members, n, s0[n], m, k, CellsOf(members, s0, k), k in s0[m].store);
    }
  }

  lemma MemberCarries(
      c: Config, members: set<string>, n: string, nd: Node, m: string, k: string, cells: set<Cell>, arrived: bool)
    requires SettledNode(c, members, n, nd) && m !in members && (k in nd.store ==> nd.store[k] in cells)
    ensures Carries(n, nd, m, m, k, cells, arrived) && nd.task.Idle?
  {
    NotHeardOf(c, members, m, n, nd);
  }

  lemma NotHeardOf(c: Config, members: set<string>, m: string, n: string, nd: Node)
    requires SettledNode(c, members, n, nd) && m !in members
    ensures nd.task.Idle? && m !in nd.view.nodes
  {
    assert m !in Elements(nd.view.nodes);
  }

  lemma QuietOnItsWay(s0: Cluster, m: string, s: Cluster, k: string, cells: set<Cell>, a: string)
    requires OnItsWay(m, m, k, cells, s0) && Quiet(s0, m, s) && a in s && a != m && k in s0[a].store
    requires forall n :: n in s0 ==> s0[n].task.Idle?
    ensures OnItsWay(m, m, k, cells, s) && k in s[a].store
  {
    forall n | n in s
      ensures Carries(n, s[n], m, m, k, cells, k in s[m].store)
    {
      assert Carries(n, s0[n], m, m, k, cells, k in s0[m].store);
      if n != m {
        StillCarries(n, s0[n], m, m, k, cells, k in s0[m].store, k in s[m].store);
      }
    }
  }

  lemma StillCarries(
      n: string, nd: Node, o: string, x: string, k: string, cells: set<Cell>, arrived: bool, arrived': bool)
    requires Carries(n, nd, o, x, k, cells, arrived) && (!arrived' ==> !InHand(nd.task, k))
    ensures Carries(n, nd, o, x, k, cells, arrived')
  {
  }

  lemma FindsItself(c: Config, members: set<string>, a: string, nd: Node, k: string, m: string)
    requires SettledNode(c, members, a, nd) && a in members && a != "" && k in nd.store && m !in members
    ensures c.Count() > 0 && Finds(a, m, c.sum64(k), nd.view)
  {
    NotHeardOf(c, members, m, a, nd);
    HolderIsNearest(c, members, a, nd, k);
  }

  lemma StartsToHandOver(
      c: Config, members: set<string>, joiners: set<string>, s0: Cluster, a: string, k: string, m: string, s: Cluster)
    requires Gathering(c, members, joiners, s0) && a in members && k in s0[a].store && m in joiners
    requires Inv(c, members + joiners, s) && Quiet(s0, m, s)
    ensures HandingOver(c, members + joiners, a, m, k, CellsOf(members, s0, k), s) && c.Count() > 0
    ensures s[a].task.Idle? && m !in s[a].view.nodes
  {
    SetsOut(c, members, joiners, s0, a, k, m);
    QuietOnItsWay(s0, m, s, k, CellsOf(members, s0, k), a);
    assert SettledNode(c, members, a, s0[a]);
    FindsItself(c, members, a, s0[a], k, m);
    NotHeardOf(c, members, m, a, s0[a]);
  }

  lemma GivesAway(
      c: Config, members: set<string>, joiners: set<string>, s0: Cluster, a: string, k: string, m: string, s: Cluster)
    returns (steps: seq<Step>, s': Cluster)
    requires Gathering(c, members, joiners, s0) && a in members && k in s0[a].store && Rival(c, joiners, a, k, m)
    requires Inv(c, members + joiners, s) && Quiet(s0, m, s)
    ensures Leads(c, s, steps, s') && Inv(c, members + joiners, s') && Spares(s, s', {a}) && k in s'[m].store
  {
    StartsToHandOver(c, members, joiners, s0, a, k, m, s);
    steps, s' := PassesOn(c, members + joiners, s, a, m, k, CellsOf(members, s0, k));
  }

  /** A joiner as near to the key as its home can get it, whoever else joins. */
  lemma GetsTheKey(c: Config, members: set<string>, joiners: set<string>, s0: Cluster, a: string, k: string, m: string)
    returns (steps: seq<Step>, s: Cluster)
    requires Gathering(c, members, joiners, s0) && a in members && k in s0[a].store && Rival(c, joiners, a, k, m)
    ensures Leads(c, s0, steps, s) && Inv(c, members + joiners, s)
    ensures m in s && s[m].task.Idle? && Elements(s[m].view.nodes) == members + joiners && k in s[m].store
  {
    var front, s1 := HearsFirst(c, members, joiners, s0, m);
    var back, s2 := GivesAway(c, members, joiners, s0, a, k, m, s1);
    LeadsOn(c, s0, front, s1, back, s2);
    steps, s := front + back, s2;
  }

  /** The joiner keeps the key while everybody else hears of everybody. */
  lemma KeepsTheKey(c: Config, good: Cluster -> bool, s: Cluster, m: string, k: string)
    returns (steps: seq<Step>, s': Cluster)
    requires Sound(c, good) && good(s) && m in s
    requires s[m].task.Idle? && Elements(s[m].view.nodes) == s.Keys && k in s[m].store
    ensures Leads(c, s, steps, s') && good(s') && s'.Keys == s.Keys && Over(s.Keys, s') && k in s'[m].store
  {
    steps, s' := AllHear(c, good, s, s.Keys - {m});
  }

  // ----- who takes whom for the owner

  /** A node that knew `x` before `y`, which is no further away, does not take
      `x` for the owner once it knows `y`. */
  ghost predicate Passed(c: Config, names: set<string>, n: string, x: string, y: string, h: Hash, s: Cluster) {
    && Inv(c, names, s) && n in s && x in s[n].view.nodes
    && (y in s[n].view.nodes ==> Owner(s[n].view.ring, h) != x)
  }

  lemma StaysPassed(c: Config, view: RingState, who: string, x: string, y: string, h: Hash)
    requires WellFormed(c, view) && c.Count() > 0 && x in view.nodes && who !in view.nodes
    requires Rank(c, y, h) <= Rank(c, x, h) && (y in view.nodes ==> Owner(view.ring, h) != x)
    ensures x in Add(c, view, who).nodes
    ensures y in Add(c, view, who).nodes ==> Owner(Add(c, view, who).ring, h) != x
  {
    AddMovesOnlyToTheNewNode(c, view, who, h);
    OwnerDistance(c, view, h);
  }

  lemma JoinStaysPassed(
      c: Config, names: set<string>, n: string, x: string, y: string, h: Hash, s: Cluster, step: Step)
    requires Passed(c, names, n, x, y, h, s) && Enabled(s, step) && step.Join? && step.at == n
    requires c.Count() > 0 && Rank(c, y, h) <= Rank(c, x, h)
    ensures var view := Add(c, s[n].view, step.who);
            x in view.nodes && (y in view.nodes ==> Owner(view.ring, h) != x)
  {
    assert NodeInv(c, names, n, s[n]);
    StaysPassed(c, s[n].view, step.who, x, y, h);
  }

  lemma StepStaysPassed(
      c: Config, names: set<string>, n: string, x: string, y: string, h: Hash, s: Cluster, step: Step)
    requires Passed(c, names, n, x, y, h, s) && Enabled(s, step) && Undisturbed(step)
    requires c.Count() > 0 && Rank(c, y, h) <= Rank(c, x, h)
    ensures Passed(c, names, n, x, y, h, Apply(c, s, step))
  {
    InvProper(c, names, s, step);
    ViewAfter(c, s, step, n);
    if step.Join? && step.at == n {
      JoinStaysPassed(c, names, n, x, y, h, s, step);
    }
    StepInv(c, names, s, step);
  }

  lemma RunStaysPassed(
      c: Config, names: set<string>, n: string, x: string, y: string, h: Hash, s: Cluster, steps: seq<Step>)
    requires Passed(c, names, n, x, y, h, s) && Legal(c, s, steps) && AllUndisturbed(steps)
    requires c.Count() > 0 && Rank(c, y, h) <= Rank(c, x, h)
    ensures Passed(c, names, n, x, y, h, Run(c, s, steps))
  {
    var inv := (t: Cluster) => Passed(c, names, n, x, y, h, t);
    forall t: Cluster, step | inv(t) && Enabled(t, step) && Undisturbed(step)
      ensures inv(Apply(c, t, step))
    {
      StepStaysPassed(c, names, n, x, y, h, t, step);
    }
    RunKeeps(c, s, steps, Undisturbed, inv);
  }

  /** In the beginning, a joiner is in nobody's view but its own. */
  lemma NotYetInView(c: Config, members: set<string>, joiners: set<string>, s0: Cluster, x: string, y: string)
    requires Gathering(c, members, joiners, s0) && x in s0 && x != y && (x in joiners || y in joiners)
    ensures y !in s0[x].view.nodes
  {
    if x in members {
      NotHeardOf(c, members, y, x, s0[x]);
    }
  }

  /** In its own view, no node wins a tie against one it heard of later. */
  lemma NotItsOwnOwner(
      c: Config, members: set<string>, joiners: set<string>, s0: Cluster, steps: seq<Step>, x: string, y: string,
      h: Hash)
    requires Gathering(c, members, joiners, s0) && c.Count() > 0
    requires x in s0 && y in s0 && x != y && (x in joiners || y in joiners) && Rank(c, y, h) <= Rank(c, x, h)
    requires Legal(c, s0, steps) && AllUndisturbed(steps) && Over(members + joiners, Run(c, s0, steps))
    ensures Owner(Run(c, s0, steps)[x].view.ring, h) != x
  {
    GatheringInv(c, members, joiners, s0);
    NotYetInView(c, members, joiners, s0, x, y);
    assert NodeInv(c, members + joiners, x, s0[x]);
    RunStaysPassed(c, members + joiners, x, x, y, h, s0, steps);
    assert y in Elements(Run(c, s0, steps)[x].view.nodes);
  }

  // ----- when a key misses its owner

  /** If `m` is as near to the key as its home, and `p` as near as `m`, there is
      a run without failures after which everybody knows everybody, and the key
      is at `m`, which takes itself not for the owner. There it stays: arriving
      keys are stored as they come, and no join is left that would make `m` go
      over its store. */
  lemma Misplaces(
      c: Config, members: set<string>, joiners: set<string>, s0: Cluster, a: string, k: string, m: string, p: string)
    returns (steps: seq<Step>)
    requires Gathering(c, members, joiners, s0) && a in members && k in s0[a].store && Rival(c, joiners, a, k, m)
    requires p in members + joiners && p != m && Rank(c, p, c.sum64(k)) <= Rank(c, m, c.sum64(k))
    ensures Legal(c, s0, steps) && AllUndisturbed(steps) && Over(members + joiners, Run(c, s0, steps))
    ensures k in Run(c, s0, steps)[m].store && Owner(Run(c, s0, steps)[m].view.ring, c.sum64(k)) != m
  {
    HolderIsNearest(c, members, a, s0[a], k);
    var front, s1 := GetsTheKey(c, members, joiners, s0, a, k, m);
    var good := (t: Cluster) => Inv(c, members + joiners, t);
    InvIsSound(c, members + joiners, good);
    var back, s2 := KeepsTheKey(c, good, s1, m, k);
    LeadsOn(c, s0, front, s1, back, s2);
    steps := front + back;
    NotItsOwnOwner(c, members, joiners, s0, steps, m, p, c.sum64(k));
  }

  /** A joiner that is as near to the key as another node, and none nearer: then
      the key is never placed, since the views do not agree on an owner. */
  lemma TiedNeverPlaced(
      c: Config, members: set<string>, joiners: set<string>, s0: Cluster, steps: seq<Step>, k: string, j: string,
      q: string)
    requires Gathering(c, members, joiners, s0) && c.Count() > 0 && j in joiners && q in s0 && q != j
    requires Rank(c, j, c.sum64(k)) == Rank(c, q, c.sum64(k))
    requires forall n :: n in s0 ==> Rank(c, j, c.sum64(k)) <= Rank(c, n, c.sum64(k))
    requires Legal(c, s0, steps) && AllUndisturbed(steps) && Over(members + joiners, Run(c, s0, steps))
    ensures !AtOwner(c, Run(c, s0, steps), k)
  {
    var s, h := Run(c, s0, steps), c.sum64(k);
    var x := Owner(s[j].view.ring, h);
    OwnerInTheEnd(c, members, joiners, s0, steps, j, h);
    NotItsOwnOwner(c, members, joiners, s0, steps, x, if x == j then q else j, h);
    DisagreeingViews(c, s, k, j, x);
  }

  lemma DisagreeingViews(c: Config, s: Cluster, k: string, j: string, x: string)
    requires j in s && x in s && Owner(s[j].view.ring, c.sum64(k)) == x && Owner(s[x].view.ring, c.sum64(k)) != x
    ensures !AtOwner(c, s, k)
  {
    if k in s[x].store {
      assert Owner(s[x].view.ring, c.sum64(k)) != x;
    }
  }

  lemma StillOverlooks(
      c: Config, names: set<string>, n: string, x: string, y: string, h: Hash, s: Cluster)
    returns (steps: seq<Step>, s': Cluster)
    requires Passed(c, names, n, x, y, h, s) && c.Count() > 0 && y in names && Rank(c, y, h) <= Rank(c, x, h)
    ensures Leads(c, s, steps, s') && Over(names, s') && Owner(s'[n].view.ring, h) != x
  {
    var good := (t: Cluster) => Inv(c, names, t);
    InvIsSound(c, names, good);
    steps, s' := AllHear(c, good, s, names);
    RunStaysPassed(c, names, n, x, y, h, s, steps);
    assert y in Elements(s'[n].view.nodes);
  }

  /** The node `x` hears of `a` before `b`. */
  lemma HearsOfFirst(c: Config, s: Cluster, x: string, a: string, b: string) returns (step: Step)
    requires x in s && a in s && a != x && a != b && s[x].task.Idle?
    requires a !in s[x].view.nodes && b !in s[x].view.nodes
    ensures Enabled(s, step) && Leads(c, s, [step], Apply(c, s, step))
    ensures a in Apply(c, s, step)[x].view.nodes && b !in Apply(c, s, step)[x].view.nodes
  {
    step := HearsOfOne(c, s, x, a);
    ViewAfter(c, s, step, x);
  }

  /** If `b` is as near to the key as `a`, there is a run after which a joiner
      does not take `a` for the owner. */
  lemma Overlooks(
      c: Config, members: set<string>, joiners: set<string>, s0: Cluster, a: string, b: string, x: string, h: Hash)
    returns (steps: seq<Step>)
    requires Gathering(c, members, joiners, s0) && a in members && b in members && a != b && x in joiners
    requires c.Count() > 0 && Rank(c, b, h) <= Rank(c, a, h)
    ensures Legal(c, s0, steps) && AllUndisturbed(steps) && Over(members + joiners, Run(c, s0, steps))
    ensures Owner(Run(c, s0, steps)[x].view.ring, h) != a
  {
    GatheringInv(c, members, joiners, s0);
    NotYetInView(c, members, joiners, s0, x, a);
    NotYetInView(c, members, joiners, s0, x, b);
    var step := HearsOfFirst(c, s0, x, a, b);
    StepInv(c, members + joiners, s0, step);
    var back, s2 := StillOverlooks(c, members + joiners, x, a, b, h, Apply(c, s0, step));
    LeadsOn(c, s0, [step], Apply(c, s0, step), back, s2);
    steps := [step] + back;
  }
}
