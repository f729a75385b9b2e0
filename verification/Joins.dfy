/** Nodes join a settled cluster, any number of them at the same time: what
    becomes of a key on its way to a new owner, and of one that stays. */
module Joins {
  import opened Values
  import opened HashRing
  import opened Grpc
  import opened RingTheory
  import opened Protocol
  import opened Pools

  // ----- settled clusters

  /** A node that knows all members, is not transferring, and holds only what it owns. */
  ghost predicate SettledNode(c: Config, names: set<string>, n: string, nd: Node) {
    && NodeInv(c, names, n, nd)
    && nd.task.Idle? && Elements(nd.view.nodes) == names && nd.pool.Keys == names - {n}
    && forall k :: k in nd.store ==> Owner(nd.view.ring, nd.store[k].hash) == n && Transferable(nd.store[k])
  }

  /** Remote nodes accept the cell. */
  predicate Transferable(cell: Cell) {
    cell.hash != 0 && cell.value.Len() > 0
  }

  ghost predicate Settled(c: Config, names: set<string>, s: Cluster) {
    s.Keys == names && "" !in names && forall n :: n in s ==> SettledNode(c, names, n, s[n])
  }

  // ----- joins

  /** A step of a join that nothing disturbs, whoever joins. */
  predicate Undisturbed(step: Step) {
    match step
    case Join(_, _, meta) => meta.Parsed? && meta.addr != ""
    case Visit(_, _, dials) => dials
    case Deliver(_, outcome, _) => outcome == Acked
    case Delete(_) => true
    case Finish(_) => true
    case Leave(_, _) => false
    case ClientWrite(_, _, _, _) => false
  }

  ghost predicate AllUndisturbed(steps: seq<Step>) {
    forall i :: 0 <= i < |steps| ==> Undisturbed(steps[i])
  }

  /** `joiners`, new and empty, face a cluster settled on `members`. */
  ghost predicate Gathering(c: Config, members: set<string>, joiners: set<string>, s: Cluster) {
    && members !! joiners && "" !in members + joiners && s.Keys == members + joiners
    && (forall p :: p in members ==> SettledNode(c, members, p, s[p]))
    && (forall j :: j in joiners ==> s[j] == Start(c, {j})[j])
  }

  /** Every member knows every other one, and no loop is running. */
  ghost predicate Over(names: set<string>, s: Cluster) {
    forall n :: n in s ==> s[n].task.Idle? && Elements(s[n].view.nodes) == names
  }

  // ----- one key on its way

  function Pending(task: Task): set<string> {
    if task.Idle? then {} else task.pending
  }

  predicate InHand(task: Task, k: string) {
    (task.Sending? && task.pair.key == k) || (task.Deleting? && task.key == k)
  }

  /** The node's loop cannot fail: it knows an address of everybody in its view,
      and remote nodes accept all it has. */
  ghost predicate Able(n: string, nd: Node) {
    && PoolFollowsView(n, nd) && n in nd.view.nodes
    && (forall k :: k in nd.store ==> k != "" && Transferable(nd.store[k]))
    && (nd.task.Sending? ==> Accepts(nd.task.pair))
  }

  /** Once the node knows `x`, its loop has still to handle the key. */
  predicate Due(nd: Node, x: string, k: string) {
    k in nd.store && x in nd.view.nodes ==> k in Pending(nd.task) || InHand(nd.task, k)
  }

  /** A node's part in bringing the key to `o`: whoever else has it hands it
      over, to `o` alone, once it knows `x`, and deletes it only when it is
      there. All copies are among `cells`. */
  ghost predicate Carries(n: string, nd: Node, o: string, x: string, k: string, cells: set<Cell>, arrived: bool) {
    && (k in nd.store ==> nd.store[k] in cells)
    && (InHand(nd.task, k) ==> n != o && x in nd.view.nodes && k in nd.store)
    && (nd.task.Sending? && nd.task.pair.key == k ==>
          nd.task.to == o && Cell(nd.task.pair.hash, nd.task.pair.value) in cells)
    && (nd.task.Deleting? && nd.task.key == k ==> arrived)
    && (k in nd.store && n != o ==> Able(n, nd) && Due(nd, x, k))
  }

  ghost predicate OnItsWay(o: string, x: string, k: string, cells: set<Cell>, s: Cluster) {
    && o in s && Held(s, k) && (forall cell :: cell in cells ==> Transferable(cell))
    && forall n :: n in s ==> Carries(n, s[n], o, x, k, cells, k in s[o].store)
  }

  /** What the step finds when it looks up owners. */
  ghost predicate Informed(c: Config, o: string, x: string, k: string, n: string, nd: Node, step: Step) {
    && n in nd.view.nodes && (step.Join? ==> step.who != "")
    && (step.Visit? && step.key in nd.store ==>
          && Owner(nd.view.ring, nd.store[step.key].hash) in nd.view.nodes
          && (step.key == k ==>
                Owner(nd.view.ring, nd.store[k].hash) == if n != o && x in nd.view.nodes then o else n))
  }

  /** One turn of the loop up to the remote write. */
  lemma CarryVisit(
      c: Config, n: string, nd: Node, o: string, x: string, k: string, cells: set<Cell>, arrived: bool, step: Step)
    requires Carries(n, nd, o, x, k, cells, arrived) && step.at == n && Ready(nd, step) && step.Visit? && step.dials
    requires Informed(c, o, x, k, n, nd, step)
    ensures Carries(n, Local(c, nd, step), o, x, k, cells, arrived)
  {
    if step.key in nd.store {
      assert Owner(nd.view.ring, nd.store[step.key].hash) in Elements(nd.view.nodes);
      AcceptsIff(KeyValuePair(step.key, nd.store[step.key].hash, nd.store[step.key].value));
    }
  }

  lemma CarryJoin(
      c: Config, n: string, nd: Node, o: string, x: string, k: string, cells: set<Cell>, arrived: bool, step: Step)
    requires Carries(n, nd, o, x, k, cells, arrived) && step.at == n && Ready(nd, step)
    requires step.Join? && Undisturbed(step) && step.who != ""
    ensures Carries(n, Local(c, nd, step), o, x, k, cells, arrived)
  {
    if PoolFollowsView(n, nd) {
      LocalPoolFollowsView(c, nd, step);
    }
  }

  /** The loop's other steps. A remote write of the key has put it where it is to end. */
  lemma CarryOn(
      c: Config, n: string, nd: Node, o: string, x: string, k: string, cells: set<Cell>, arrived: bool, arrived': bool,
      step: Step)
    requires Carries(n, nd, o, x, k, cells, arrived) && (arrived ==> arrived') && step.at == n && Ready(nd, step)
    requires step.Finish? || step.Delete? || (step.Deliver? && step.outcome == Acked)
    requires step.Deliver? && nd.task.pair.key == k && Accepts(nd.task.pair) ==> arrived'
    ensures Carries(n, Local(c, nd, step), o, x, k, cells, arrived')
  {
  }

  /** The receiver of a remote write. */
  lemma CarryReceived(
      n: string, nd: Node, o: string, x: string, k: string, cells: set<Cell>, arrived: bool, arrived': bool,
      pair: KeyValuePair, seen: bool)
    requires Carries(n, nd, o, x, k, cells, arrived) && (arrived ==> arrived') && Accepts(pair)
    requires pair.key == k ==> n == o && Cell(pair.hash, pair.value) in cells
    ensures Carries(n, Receive(nd, pair, seen), o, x, k, cells, arrived')
  {
    AcceptsIff(pair);
  }

  // ----- steps of the cluster

  lemma ActorCarries(
      c: Config, n: string, nd: Node, o: string, x: string, k: string, cells: set<Cell>, arrived: bool, arrived': bool,
      step: Step)
    requires Carries(n, nd, o, x, k, cells, arrived) && (arrived ==> arrived')
    requires step.at == n && Ready(nd, step) && Undisturbed(step) && Informed(c, o, x, k, n, nd, step)
    requires step.Deliver? && nd.task.pair.key == k && Accepts(nd.task.pair) ==> arrived'
    ensures Carries(n, Local(c, nd, step), o, x, k, cells, arrived')
  {
    if step.Join? {
      CarryJoin(c, n, nd, o, x, k, cells, arrived, step);
    } else if step.Visit? {
      CarryVisit(c, n, nd, o, x, k, cells, arrived, step);
    } else {
      CarryOn(c, n, nd, o, x, k, cells, arrived, arrived', step);
    }
  }

  /** What becomes of the copies of the key: none but `o` gets a new one. */
  lemma CopiesMove(c: Config, s: Cluster, step: Step, o: string, x: string, k: string, cells: set<Cell>)
    requires OnItsWay(o, x, k, cells, s) && Proper(s, step) && Undisturbed(step)
    ensures k in s[o].store ==> k in Apply(c, s, step)[o].store
    ensures Transmits(s, step) && s[step.at].task.pair.key == k ==> k in Apply(c, s, step)[o].store
    ensures Held(Apply(c, s, step), k)
    ensures forall n :: n in s && n != o && k in Apply(c, s, step)[n].store ==> k in s[n].store
  {
    Effect(c, s, step);
    assert Carries(step.at, s[step.at], o, x, k, cells, k in s[o].store);
    var n :| n in s && k in s[n].store;
    assert k in Apply(c, s, step)[n].store || k in Apply(c, s, step)[o].store;
  }

  lemma NodeCarries(c: Config, s: Cluster, step: Step, o: string, x: string, k: string, cells: set<Cell>, n: string)
    requires OnItsWay(o, x, k, cells, s) && Proper(s, step) && Undisturbed(step) && n in s
    requires Informed(c, o, x, k, step.at, s[step.at], step)
    ensures Carries(n, Apply(c, s, step)[n], o, x, k, cells, k in Apply(c, s, step)[o].store)
  {
    var arrived, arrived' := k in s[o].store, k in Apply(c, s, step)[o].store;
    CopiesMove(c, s, step, o, x, k, cells);
    Effect(c, s, step);
    assert Carries(n, s[n], o, x, k, cells, arrived) && Carries(step.at, s[step.at], o, x, k, cells, arrived);
    if n == step.at {
      ActorCarries(c, n, s[n], o, x, k, cells, arrived, arrived', step);
    } else if Transmits(s, step) && n == s[step.at].task.to {
      CarryReceived(n, s[n], o, x, k, cells, arrived, arrived', s[step.at].task.pair, step.seen);
    }
  }

  lemma StepCarries(c: Config, s: Cluster, step: Step, o: string, x: string, k: string, cells: set<Cell>)
    requires OnItsWay(o, x, k, cells, s) && Proper(s, step) && Undisturbed(step)
    requires Informed(c, o, x, k, step.at, s[step.at], step)
    ensures OnItsWay(o, x, k, cells, Apply(c, s, step))
  {
    CopiesMove(c, s, step, o, x, k, cells);
    forall n | n in Apply(c, s, step)
      ensures Carries(n, Apply(c, s, step)[n], o, x, k, cells, k in Apply(c, s, step)[o].store)
    {
      NodeCarries(c, s, step, o, x, k, cells, n);
    }
  }

  /** Where the key's copies are when no loop is running and everybody knows `x`. */
  lemma LastCopy(s: Cluster, o: string, x: string, k: string, cells: set<Cell>, n: string)
    requires OnItsWay(o, x, k, cells, s) && n in s
    requires forall m :: m in s ==> s[m].task.Idle? && x in s[m].view.nodes
    ensures k in s[n].store <==> n == o
    ensures k in s[o].store && s[o].store[k] in cells
  {
    var m :| m in s && k in s[m].store;
    assert Carries(m, s[m], o, x, k, cells, k in s[o].store) && Carries(n, s[n], o, x, k, cells, k in s[o].store);
    assert Carries(o, s[o], o, x, k, cells, k in s[o].store);
  }

  // ----- what a node finds in its own view, as nodes join

  /** In the view, `o` owns the hash once it is there, and `n` does before. */
  ghost predicate Finds(n: string, o: string, h: Hash, view: RingState) {
    n in view.nodes && Owner(view.ring, h) == if o in view.nodes then o else n
  }

  /** And so it remains: `o` is no further away than `n`, and whoever else is
      still to come is further away than the owner. */
  ghost predicate Sees(c: Config, names: set<string>, n: string, o: string, h: Hash, view: RingState) {
    && Finds(n, o, h, view) && Rank(c, o, h) <= Rank(c, n, h)
    && forall who :: who in names && who !in view.nodes && who != o ==>
         Rank(c, if o in view.nodes then o else n, h) < Rank(c, who, h)
  }

  lemma JoinFinds(c: Config, view: RingState, who: string, n: string, o: string, h: Hash)
    requires WellFormed(c, view) && c.Count() > 0 && who !in view.nodes && Finds(n, o, h, view)
    requires if who == o then Rank(c, o, h) <= Rank(c, n, h)
             else Rank(c, if o in view.nodes then o else n, h) < Rank(c, who, h)
    ensures Finds(n, o, h, Add(c, view, who))
  {
    AddMovesOnlyToTheNewNode(c, view, who, h);
    OwnerDistance(c, view, h);
  }

  lemma JoinSees(c: Config, names: set<string>, view: RingState, who: string, n: string, o: string, h: Hash)
    requires WellFormed(c, view) && c.Count() > 0 && who in names && who !in view.nodes && Sees(c, names, n, o, h, view)
    ensures Sees(c, names, n, o, h, Add(c, view, who))
  {
    JoinFinds(c, view, who, n, o, h);
  }

  lemma OwnerKnown(c: Config, view: RingState, h: Hash)
    requires WellFormed(c, view) && c.Count() > 0 && view.nodes != []
    ensures Owner(view.ring, h) in view.nodes
  {
    OwnerHasLeastRank(c, view, h);
  }

  /** A node that finds the key's owner so is informed. */
  lemma InformedBy(c: Config, names: set<string>, o: string, k: string, n: string, nd: Node, step: Step)
    requires NodeInv(c, names, n, nd) && c.Count() > 0 && (step.Join? ==> step.who != "")
    requires k in nd.store ==> Finds(n, o, c.sum64(k), nd.view)
    ensures Informed(c, o, o, k, n, nd, step)
  {
    if step.Visit? && step.key in nd.store {
      OwnerKnown(c, nd.view, nd.store[step.key].hash);
    }
  }

  // ----- runs in which everybody sees the same destination

  /** If the node has the key, it is a home or the destination; and these see where it goes. */
  ghost predicate SeesWay(
      c: Config, names: set<string>, homes: set<string>, o: string, k: string, n: string, nd: Node) {
    && (k in nd.store ==> n in homes + {o})
    && (n in homes + {o} ==> Sees(c, names, n, o, c.sum64(k), nd.view))
  }

  ghost predicate AllSee(c: Config, names: set<string>, homes: set<string>, o: string, k: string, s: Cluster) {
    forall n :: n in s ==> SeesWay(c, names, homes, o, k, n, s[n])
  }

  /** Views change by joins only. */
  lemma ViewAfter(c: Config, s: Cluster, step: Step, n: string)
    requires Proper(s, step) && Undisturbed(step) && n in s
    ensures Apply(c, s, step)[n].view == if step.Join? && step.at == n then Add(c, s[n].view, step.who) else s[n].view
  {
    Effect(c, s, step);
  }

  lemma NodeSees(
      c: Config, names: set<string>, s: Cluster, step: Step, o: string, k: string, n: string)
    requires Inv(c, names, s) && Enabled(s, step) && Undisturbed(step) && c.Count() > 0 && n in s
    requires Sees(c, names, n, o, c.sum64(k), s[n].view)
    ensures n in Apply(c, s, step) && Sees(c, names, n, o, c.sum64(k), Apply(c, s, step)[n].view)
  {
    InvProper(c, names, s, step);
    ViewAfter(c, s, step, n);
    if step.Join? && step.at == n {
      JoinSees(c, names, s[n].view, step.who, n, o, c.sum64(k));
    }
  }

  lemma StepAllSee(
      c: Config, names: set<string>, homes: set<string>, s: Cluster, step: Step, o: string, k: string, cells: set<Cell>)
    requires Inv(c, names, s) && Enabled(s, step) && Undisturbed(step) && c.Count() > 0
    requires OnItsWay(o, o, k, cells, s) && AllSee(c, names, homes, o, k, s)
    ensures AllSee(c, names, homes, o, k, Apply(c, s, step))
  {
    InvProper(c, names, s, step);
    CopiesMove(c, s, step, o, o, k, cells);
    forall n | n in Apply(c, s, step)
      ensures SeesWay(c, names, homes, o, k, n, Apply(c, s, step)[n])
    {
      assert SeesWay(c, names, homes, o, k, n, s[n]);
      if n in homes + {o} {
        NodeSees(c, names, s, step, o, k, n);
      }
    }
  }

  lemma StepInformed(c: Config, names: set<string>, homes: set<string>, s: Cluster, step: Step, o: string, k: string)
    requires Inv(c, names, s) && Enabled(s, step) && c.Count() > 0 && AllSee(c, names, homes, o, k, s)
    ensures Proper(s, step) && Informed(c, o, o, k, step.at, s[step.at], step)
  {
    InvProper(c, names, s, step);
    assert NodeInv(c, names, step.at, s[step.at]) && SeesWay(c, names, homes, o, k, step.at, s[step.at]);
    InformedBy(c, names, o, k, step.at, s[step.at], step);
  }

  ghost predicate Travels(
      c: Config, names: set<string>, homes: set<string>, o: string, k: string, cells: set<Cell>, s: Cluster) {
    Inv(c, names, s) && OnItsWay(o, o, k, cells, s) && AllSee(c, names, homes, o, k, s)
  }

  lemma StepTravels(
      c: Config, names: set<string>, homes: set<string>, s: Cluster, step: Step, o: string, k: string, cells: set<Cell>)
    requires Travels(c, names, homes, o, k, cells, s) && Enabled(s, step) && Undisturbed(step) && c.Count() > 0
    ensures Travels(c, names, homes, o, k, cells, Apply(c, s, step))
  {
    StepAllSee(c, names, homes, s, step, o, k, cells);
    StepInformed(c, names, homes, s, step, o, k);
    StepCarries(c, s, step, o, o, k, cells);
    StepInv(c, names, s, step);
  }

  lemma RunTravels(
      c: Config, names: set<string>, homes: set<string>, s: Cluster, steps: seq<Step>, o: string, k: string,
      cells: set<Cell>)
    requires Travels(c, names, homes, o, k, cells, s) && Legal(c, s, steps) && AllUndisturbed(steps) && c.Count() > 0
    ensures Travels(c, names, homes, o, k, cells, Run(c, s, steps))
  {
    var inv := (t: Cluster) => Travels(c, names, homes, o, k, cells, t);
    forall t: Cluster, step | inv(t) && Enabled(t, step) && Undisturbed(step)
      ensures inv(Apply(c, t, step))
    {
      StepTravels(c, names, homes, t, step, o, k, cells);
    }
    RunKeeps(c, s, steps, Undisturbed, inv);
  }

  // ----- runs in which nobody hands the key over

  /** The node keeps what it had of the key, as it owns the key in its own view,
      and nobody else that is to come is as near. */
  ghost predicate StaysPut(c: Config, names: set<string>, k: string, n: string, nd0: Node, nd: Node) {
    && !InHand(nd.task, k) && (k in nd.store <==> k in nd0.store)
    && (k in nd.store ==> nd.store[k] == nd0.store[k] && Sees(c, names, n, n, c.sum64(k), nd.view))
  }

  ghost predicate AtHome(c: Config, names: set<string>, k: string, s0: Cluster, s: Cluster) {
    s.Keys == s0.Keys && forall n :: n in s ==> StaysPut(c, names, k, n, s0[n], s[n])
  }

  lemma NodeAtHome(c: Config, k: string, s: Cluster, step: Step, n: string)
    requires Proper(s, step) && Undisturbed(step) && n in s
    requires !InHand(s[n].task, k) && !InHand(s[step.at].task, k)
    requires k in s[step.at].store ==> Owner(s[step.at].view.ring, s[step.at].store[k].hash) == step.at
    ensures n in Apply(c, s, step) && !InHand(Apply(c, s, step)[n].task, k)
    ensures k in Apply(c, s, step)[n].store <==> k in s[n].store
    ensures k in s[n].store ==> Apply(c, s, step)[n].store[k] == s[n].store[k]
  {
    Effect(c, s, step);
  }

  lemma ActsAtHome(c: Config, names: set<string>, k: string, s0: Cluster, s: Cluster, step: Step)
    requires Inv(c, names, s) && Enabled(s, step) && AtHome(c, names, k, s0, s)
    ensures Proper(s, step) && !InHand(s[step.at].task, k)
    ensures k in s[step.at].store ==> Owner(s[step.at].view.ring, s[step.at].store[k].hash) == step.at
  {
    InvProper(c, names, s, step);
    assert NodeInv(c, names, step.at, s[step.at]) && StaysPut(c, names, k, step.at, s0[step.at], s[step.at]);
  }

  lemma NodeStaysPut(c: Config, names: set<string>, k: string, s0: Cluster, s: Cluster, step: Step, n: string)
    requires Inv(c, names, s) && Enabled(s, step) && Undisturbed(step) && AtHome(c, names, k, s0, s) && c.Count() > 0
    requires n in s
    ensures StaysPut(c, names, k, n, s0[n], Apply(c, s, step)[n])
  {
    ActsAtHome(c, names, k, s0, s, step);
    assert StaysPut(c, names, k, n, s0[n], s[n]);
    NodeAtHome(c, k, s, step, n);
    if k in s[n].store {
      NodeSees(c, names, s, step, n, k, n);
    }
  }

  lemma StepAtHome(c: Config, names: set<string>, k: string, s0: Cluster, s: Cluster, step: Step)
    requires Inv(c, names, s) && Enabled(s, step) && Undisturbed(step) && AtHome(c, names, k, s0, s) && c.Count() > 0
    ensures AtHome(c, names, k, s0, Apply(c, s, step))
  {
    forall n | n in Apply(c, s, step)
      ensures StaysPut(c, names, k, n, s0[n], Apply(c, s, step)[n])
    {
      NodeStaysPut(c, names, k, s0, s, step, n);
    }
  }

  lemma RunAtHome(c: Config, names: set<string>, k: string, s0: Cluster, s: Cluster, steps: seq<Step>)
    requires Inv(c, names, s) && AtHome(c, names, k, s0, s) && Legal(c, s, steps) && AllUndisturbed(steps)
    requires c.Count() > 0
    ensures AtHome(c, names, k, s0, Run(c, s, steps))
  {
    var inv := (t: Cluster) => Inv(c, names, t) && AtHome(c, names, k, s0, t);
    forall t: Cluster, step | inv(t) && Enabled(t, step) && Undisturbed(step)
      ensures inv(Apply(c, t, step))
    {
      StepAtHome(c, names, k, s0, t, step);
      StepInv(c, names, t, step);
    }
    RunKeeps(c, s, steps, Undisturbed, inv);
  }

  /** A key that is nowhere stays nowhere. */
  ghost predicate Nowhere(k: string, s: Cluster) {
    forall n :: n in s ==> k !in s[n].store && !InHand(s[n].task, k)
  }

  lemma RunNowhere(c: Config, names: set<string>, s: Cluster, steps: seq<Step>, k: string)
    requires Inv(c, names, s) && Legal(c, s, steps) && AllUndisturbed(steps) && Nowhere(k, s)
    ensures Nowhere(k, Run(c, s, steps))
  {
    var inv := (t: Cluster) => Inv(c, names, t) && Nowhere(k, t);
    forall t: Cluster, step | inv(t) && Enabled(t, step) && Undisturbed(step)
      ensures inv(Apply(c, t, step))
    {
      InvProper(c, names, t, step);
      StepInv(c, names, t, step);
      StepNowhere(c, t, step, k);
    }
    RunKeeps(c, s, steps, Undisturbed, inv);
  }

  lemma StepNowhere(c: Config, s: Cluster, step: Step, k: string)
    requires Proper(s, step) && Undisturbed(step) && Nowhere(k, s)
    ensures Nowhere(k, Apply(c, s, step))
  {
    Effect(c, s, step);
  }

  // ----- the beginning

  lemma OwnerIsNearestMember(c: Config, names: set<string>, p: string, view: RingState, h: Hash)
    requires WellFormed(c, view) && Elements(view.nodes) == names && p in names && p != ""
    requires Owner(view.ring, h) == p
    ensures c.Count() > 0 && forall q :: q in names ==> Rank(c, p, h) <= Rank(c, q, h)
  {
    if c.Count() == 0 {
      RingLength(c, view);
    } else {
      OwnerHasLeastRank(c, view, h);
      assert forall q :: q in names ==> q in view.nodes;
    }
  }

  lemma MoreNames(c: Config, names: set<string>, names': set<string>, n: string, nd: Node)
    requires NodeInv(c, names, n, nd) && names <= names'
    ensures NodeInv(c, names', n, nd)
  {
  }

  lemma GatheringInv(c: Config, members: set<string>, joiners: set<string>, s: Cluster)
    requires Gathering(c, members, joiners, s)
    ensures Inv(c, members + joiners, s)
  {
    forall n | n in s
      ensures NodeInv(c, members + joiners, n, s[n])
    {
      if n in joiners {
        StartNodeInv(c, {n}, n);
        MoreNames(c, {n}, members + joiners, n, s[n]);
      } else {
        assert SettledNode(c, members, n, s[n]);
        MoreNames(c, members, members + joiners, n, s[n]);
      }
    }
  }

  /** A member that holds a key is the nearest member. */
  lemma HolderIsNearest(c: Config, members: set<string>, p: string, nd: Node, k: string)
    requires SettledNode(c, members, p, nd) && k in nd.store && p in members && p != ""
    ensures k != "" && c.Count() > 0 && nd.store[k].hash == c.sum64(k) && Transferable(nd.store[k])
    ensures forall q :: q in members ==> Rank(c, p, c.sum64(k)) <= Rank(c, q, c.sum64(k))
  {
    OwnerIsNearestMember(c, members, p, nd.view, c.sum64(k));
  }

  // ----- the end

  lemma GatheringPools(c: Config, members: set<string>, joiners: set<string>, s0: Cluster, steps: seq<Step>)
    requires Gathering(c, members, joiners, s0) && Legal(c, s0, steps) && AllUndisturbed(steps)
    ensures PoolsFollow(Run(c, s0, steps))
  {
    GatheringInv(c, members, joiners, s0);
    forall n | n in s0
      ensures PoolFollowsView(n, s0[n])
    {
      if n in joiners {
        StartPoolsFollowViews(c, {n}, n);
      } else {
        assert SettledNode(c, members, n, s0[n]);
      }
    }
    RunPoolsFollow(c, members + joiners, s0, steps);
  }

  lemma NodeInTheEnd(
      c: Config, members: set<string>, joiners: set<string>, s0: Cluster, steps: seq<Step>, n: string)
    requires Gathering(c, members, joiners, s0) && Legal(c, s0, steps) && AllUndisturbed(steps) && n in s0
    ensures NodeInv(c, members + joiners, n, Run(c, s0, steps)[n]) && PoolFollowsView(n, Run(c, s0, steps)[n])
  {
    GatheringInv(c, members, joiners, s0);
    RunInv(c, members + joiners, s0, steps);
    GatheringPools(c, members, joiners, s0, steps);
  }

  lemma OwnerInTheEnd(
      c: Config, members: set<string>, joiners: set<string>, s0: Cluster, steps: seq<Step>, n: string, h: Hash)
    requires Gathering(c, members, joiners, s0) && c.Count() > 0 && n in s0
    requires Legal(c, s0, steps) && AllUndisturbed(steps) && Over(members + joiners, Run(c, s0, steps))
    ensures var o := Owner(Run(c, s0, steps)[n].view.ring, h);
            o in s0 && forall q :: q in s0 ==> Rank(c, o, h) <= Rank(c, q, h)
  {
    var s := Run(c, s0, steps);
    NodeInTheEnd(c, members, joiners, s0, steps, n);
    OwnerHasLeastRank(c, s[n].view, h);
    assert Owner(s[n].view.ring, h) in Elements(s[n].view.nodes);
    assert forall q :: q in s0 ==> q in Elements(s[n].view.nodes);
  }

  /** Everybody takes the same node for the key's owner, and exactly that node has the key. */
  ghost predicate AtOwner(c: Config, s: Cluster, k: string) {
    forall n, q :: n in s && q in s ==> (k in s[n].store <==> Owner(s[q].view.ring, c.sum64(k)) == n)
  }

  ghost predicate AtOneNode(s: Cluster, k: string) {
    forall a, b :: a in s && b in s && k in s[a].store && k in s[b].store ==> a == b
  }
}
