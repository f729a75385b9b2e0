/** How long joins can go on. */
module JoinBound {
  import opened Values
  import opened HashRing
  import opened Grpc
  import opened Protocol
  import opened NoLoss
  import opened Joins
  import opened JoinProgress
  import opened Placement

  // ----- the work that is left

  /** Members that are not in a view. */
  function Unheard(names: set<string>, view: RingState): nat {
    |names - Elements(view.nodes)|
  }

  /** How many nodes are nearer to the key. */
  ghost function Place(c: Config, names: set<string>, n: string, k: string): nat {
    |set m | m in names && Rank(c, m, c.sum64(k)) < Rank(c, n, c.sum64(k))|
  }

  lemma PlaceDescends(c: Config, names: set<string>, n: string, m: string, k: string)
    requires m in names && Rank(c, m, c.sum64(k)) < Rank(c, n, c.sum64(k))
    ensures Place(c, names, m, k) < Place(c, names, n, k)
  {
    var near := set x | x in names && Rank(c, x, c.sum64(k)) < Rank(c, m, c.sum64(k));
    var far := set x | x in names && Rank(c, x, c.sum64(k)) < Rank(c, n, c.sum64(k));
    assert m in far && m !in near;
    SubsetCardinality(near, far - {m});
  }

  /** The steps a loop has to take, four per key to look at. */
  function LoopWork(task: Task): nat {
    match task
    case Idle => 0
    case Scanning(pending) => 4 * |pending| + 1
    case Sending(_, _, pending) => 4 * |pending| + 3
    case Deleting(_, pending) => 4 * |pending| + 2
  }

  /** Four per stored key and nearer node, to which the key may still move. A
      copy about to be deleted moves no more. */
  ghost function StoreWork(c: Config, names: set<string>, n: string, nd: Node, ks: seq<string>): nat {
    if ks == [] then 0
    else StoreWork(c, names, n, nd, ks[1..]) + KeyWork(c, names, n, nd, ks[0])
  }

  ghost function KeyWork(c: Config, names: set<string>, n: string, nd: Node, k: string): nat {
    if k in nd.store && !(nd.task.Deleting? && nd.task.key == k) then 4 * Place(c, names, n, k) else 0
  }

  /** All that a node may still have to do; `ks` lists the keys there are. */
  ghost function NodeWork(c: Config, names: set<string>, ks: seq<string>, n: string, nd: Node): nat {
    Unheard(names, nd.view) * (4 * |ks| + 2) + LoopWork(nd.task) + StoreWork(c, names, n, nd, ks)
  }

  /** The work of the nodes listed in `ids`. */
  ghost function TotalWork(c: Config, ks: seq<string>, s: Cluster, ids: seq<string>): nat
    requires Elements(ids) <= s.Keys
  {
    if ids == [] then 0
    else
      assert ids[0] in Elements(ids) && Elements(ids[1..]) <= Elements(ids);
      NodeWork(c, s.Keys, ks, ids[0], s[ids[0]]) + TotalWork(c, ks, s, ids[1..])
  }

  // ----- what a node's step does to its own work

  lemma HeardOf(names: set<string>, view: RingState, view': RingState, who: string)
    requires who in names && who !in view.nodes && view'.nodes == view.nodes + [who]
    ensures Unheard(names, view') == Unheard(names, view) - 1
  {
    assert who in names - Elements(view.nodes);
    assert names - Elements(view'.nodes) == names - Elements(view.nodes) - {who};
  }

  lemma OneLess(u: nat, cost: nat, less: nat)
    requires less == u - 1
    ensures less * cost == u * cost - cost
  {
  }

  lemma PendingKeys(pending: set<string>, ks: seq<string>)
    requires NoDuplicates(ks) && pending <= Elements(ks)
    ensures |pending| <= |ks|
  {
    DistinctCardinality(ks);
    SubsetCardinality(pending, Elements(ks));
  }

  lemma {:induction false} SameStoreWork(
      c: Config, names: set<string>, n: string, nd: Node, nd': Node, ks: seq<string>)
    requires forall k :: k in ks ==> KeyWork(c, names, n, nd', k) == KeyWork(c, names, n, nd, k)
    ensures StoreWork(c, names, n, nd', ks) == StoreWork(c, names, n, nd, ks)
  {
    if ks != [] {
      SameStoreWork(c, names, n, nd, nd', ks[1..]);
    }
  }

  /** Only for one key there is other work than before. */
  lemma {:induction false} OtherStoreWork(
      c: Config, names: set<string>, n: string, nd: Node, nd': Node, ks: seq<string>, k: string)
    requires NoDuplicates(ks) && k in ks
    requires forall j :: j in ks && j != k ==> KeyWork(c, names, n, nd', j) == KeyWork(c, names, n, nd, j)
    ensures StoreWork(c, names, n, nd', ks) - KeyWork(c, names, n, nd', k)
            == StoreWork(c, names, n, nd, ks) - KeyWork(c, names, n, nd, k)
  {
    assert ks[0] !in ks[1..];
    if ks[0] == k {
      SameStoreWork(c, names, n, nd, nd', ks[1..]);
    } else {
      OtherStoreWork(c, names, n, nd, nd', ks[1..], k);
    }
  }

  lemma JoinWorks(c: Config, names: set<string>, n: string, nd: Node, who: string, meta: Meta, ks: seq<string>)
    requires who in names && who !in nd.view.nodes && meta.Parsed? && nd.task.Idle?
    requires NoDuplicates(ks) && nd.store.Keys <= Elements(ks)
    ensures NodeWork(c, names, ks, n, BeginJoin(c, nd, who, meta)) < NodeWork(c, names, ks, n, nd)
  {
    var nd' := BeginJoin(c, nd, who, meta);
    HeardOf(names, nd.view, nd'.view, who);
    PendingKeys(nd.store.Keys, ks);
    SameStoreWork(c, names, n, nd, nd', ks);
    OneLess(Unheard(names, nd.view), 4 * |ks| + 2, Unheard(names, nd'.view));
  }

  /** A step of the loop, the remote write apart. */
  lemma LoopStepWorks(c: Config, names: set<string>, n: string, nd: Node, step: Step, ks: seq<string>)
    requires Ready(nd, step) && step.at == n && Undisturbed(step) && !step.Join? && !step.Deliver?
    ensures NodeWork(c, names, ks, n, Local(c, nd, step)) < NodeWork(c, names, ks, n, nd)
  {
    if step.Visit? {
      assert |nd.task.pending - {step.key}| == |nd.task.pending| - 1;
    }
    SameStoreWork(c, names, n, nd, Local(c, nd, step), ks);
  }

  /** The sender of a pair that is accepted, and of one that is not. */
  lemma AckedWorks(c: Config, names: set<string>, n: string, nd: Node, ks: seq<string>)
    requires nd.task.Sending? && nd.task.pair.key in nd.store && NoDuplicates(ks) && nd.task.pair.key in ks
    ensures NodeWork(c, names, ks, n, Answered(nd, true)) + 4 * Place(c, names, n, nd.task.pair.key)
            < NodeWork(c, names, ks, n, nd)
  {
    OtherStoreWork(c, names, n, nd, Answered(nd, true), ks, nd.task.pair.key);
  }

  lemma RefusedWorks(c: Config, names: set<string>, n: string, nd: Node, ks: seq<string>)
    requires nd.task.Sending?
    ensures NodeWork(c, names, ks, n, Answered(nd, false)) < NodeWork(c, names, ks, n, nd)
  {
    SameStoreWork(c, names, n, nd, Answered(nd, false), ks);
  }

  lemma ReceiverWorks(
      c: Config, names: set<string>, n: string, nd: Node, pair: KeyValuePair, seen: bool, ks: seq<string>)
    requires NoDuplicates(ks) && pair.key in ks
    ensures NodeWork(c, names, ks, n, Receive(nd, pair, seen))
            <= NodeWork(c, names, ks, n, nd) + 4 * Place(c, names, n, pair.key) + 4
  {
    assert !nd.task.Idle? ==> |nd.task.pending + {pair.key}| <= |nd.task.pending| + 1;
    OtherStoreWork(c, names, n, nd, Receive(nd, pair, seen), ks, pair.key);
  }

  // ----- the cluster

  /** Node `p` has done work, node `q` may have got some. */
  lemma {:induction false} WorkMoves(
      c: Config, ks: seq<string>, s: Cluster, s': Cluster, ids: seq<string>, p: string, d: nat, q: string, e: nat)
    requires Elements(ids) <= s.Keys && s'.Keys == s.Keys && NoDuplicates(ids) && p in s && q in s && p != q
    requires forall n :: n in s && n != p && n != q ==> s'[n] == s[n]
    requires NodeWork(c, s.Keys, ks, p, s'[p]) + d <= NodeWork(c, s.Keys, ks, p, s[p])
    requires NodeWork(c, s.Keys, ks, q, s'[q]) <= NodeWork(c, s.Keys, ks, q, s[q]) + e
    ensures TotalWork(c, ks, s', ids) + (if p in ids then d else 0)
            <= TotalWork(c, ks, s, ids) + (if q in ids then e else 0)
  {
    if ids != [] {
      assert ids[0] in Elements(ids) && Elements(ids[1..]) <= Elements(ids);
      assert ids[0] !in ids[1..];
      WorkMoves(c, ks, s, s', ids[1..], p, d, q, e);
    }
  }

  lemma {:induction false} OnesWork(c: Config, ks: seq<string>, s: Cluster, s': Cluster, ids: seq<string>, p: string)
    requires Elements(ids) <= s.Keys && s'.Keys == s.Keys && p in s
    requires forall n :: n in s && n != p ==> s'[n] == s[n]
    requires NodeWork(c, s.Keys, ks, p, s'[p]) < NodeWork(c, s.Keys, ks, p, s[p])
    ensures TotalWork(c, ks, s', ids) + (if p in ids then 1 else 0) <= TotalWork(c, ks, s, ids)
  {
    if ids != [] {
      assert ids[0] in Elements(ids) && Elements(ids[1..]) <= Elements(ids);
      OnesWork(c, ks, s, s', ids[1..], p);
    }
  }

  /** The node stores keys among `keys` only, those in hand included, and what it
      sends goes to another node, strictly nearer if it will be accepted. */
  ghost predicate Orderly(c: Config, keys: set<string>, n: string, nd: Node) {
    && nd.store.Keys <= keys && (nd.task.Deleting? ==> nd.task.key in nd.store)
    && (nd.task.Sending? ==>
          && nd.task.pair.key in nd.store && nd.task.to != n
          && (Accepts(nd.task.pair) ==>
                Rank(c, nd.task.to, c.sum64(nd.task.pair.key)) < Rank(c, n, c.sum64(nd.task.pair.key))))
  }

  ghost predicate AllOrderly(c: Config, keys: set<string>, s: Cluster) {
    forall n :: n in s ==> Orderly(c, keys, n, s[n])
  }

  lemma TransferWorks(c: Config, s: Cluster, step: Step, ks: seq<string>, ids: seq<string>)
    requires AllOrderly(c, Elements(ks), s) && Enabled(s, step) && Undisturbed(step) && Transmits(s, step)
    requires NoDuplicates(ids) && Elements(ids) == s.Keys && NoDuplicates(ks)
    ensures TotalWork(c, ks, Apply(c, s, step), ids) < TotalWork(c, ks, s, ids)
  {
    var p, task := step.at, s[step.at].task;
    assert Orderly(c, Elements(ks), p, s[p]);
    assert task.pair.key in Elements(ks) && p in Elements(ids) && task.to in Elements(ids);
    Effect(c, s, step);
    AckedWorks(c, s.Keys, p, s[p], ks);
    ReceiverWorks(c, s.Keys, task.to, s[task.to], task.pair, step.seen, ks);
    PlaceDescends(c, s.Keys, p, task.to, task.pair.key);
    WorkMoves(c, ks, s, Apply(c, s, step), ids, p, 4 * Place(c, s.Keys, p, task.pair.key) + 1, task.to,
      4 * Place(c, s.Keys, task.to, task.pair.key) + 4);
  }

  lemma ActorWorks(c: Config, s: Cluster, step: Step, ks: seq<string>)
    requires AllOrderly(c, Elements(ks), s) && Enabled(s, step) && Undisturbed(step) && !Transmits(s, step)
    requires NoDuplicates(ks)
    ensures NodeWork(c, s.Keys, ks, step.at, Local(c, s[step.at], step)) < NodeWork(c, s.Keys, ks, step.at, s[step.at])
  {
    assert Orderly(c, Elements(ks), step.at, s[step.at]);
    if step.Join? {
      JoinWorks(c, s.Keys, step.at, s[step.at], step.who, step.meta, ks);
    } else if step.Deliver? {
      RefusedWorks(c, s.Keys, step.at, s[step.at], ks);
    } else {
      LoopStepWorks(c, s.Keys, step.at, s[step.at], step, ks);
    }
  }

  lemma StepWorks(c: Config, s: Cluster, step: Step, ks: seq<string>, ids: seq<string>)
    requires AllOrderly(c, Elements(ks), s) && Enabled(s, step) && Undisturbed(step)
    requires NoDuplicates(ids) && Elements(ids) == s.Keys && NoDuplicates(ks)
    ensures TotalWork(c, ks, Apply(c, s, step), ids) < TotalWork(c, ks, s, ids)
  {
    if Transmits(s, step) {
      TransferWorks(c, s, step, ks, ids);
    } else {
      ActorWorks(c, s, step, ks);
      assert step.at in Elements(ids);
      OnesWork(c, ks, s, Apply(c, s, step), ids, step.at);
    }
  }

  /** Where an invariant keeps all orderly, there is a bound on the steps. */
  lemma {:induction false} RunWorks(
      c: Config, good: Cluster -> bool, s: Cluster, steps: seq<Step>, ks: seq<string>, ids: seq<string>)
    requires forall t :: good(t) ==> AllOrderly(c, Elements(ks), t)
    requires forall t: Cluster, step :: good(t) && Enabled(t, step) && Undisturbed(step) ==> good(Apply(c, t, step))
    requires good(s) && Legal(c, s, steps) && AllUndisturbed(steps)
    requires NoDuplicates(ids) && Elements(ids) == s.Keys && NoDuplicates(ks)
    ensures |steps| <= TotalWork(c, ks, s, ids)
    decreases |steps|
  {
    if steps != [] {
      var s' := Apply(c, s, steps[0]);
      StepWorks(c, s, steps[0], ks, ids);
      RunWorks(c, good, s', steps[1..], ks, ids);
    }
  }

  // ----- whatever has happened before, without ties

  predicate InHandStored(task: Task, store: map<string, Cell>) {
    (task.Deleting? ==> task.key in store) && (task.Sending? ==> task.pair.key in store)
  }

  /** The node stores keys among `keys` only, and the one in hand is one of them. */
  predicate Stocked(keys: set<string>, nd: Node) {
    nd.store.Keys <= keys && InHandStored(nd.task, nd.store)
  }

  /** A state of the invariant whose keys are among `keys`. */
  ghost predicate Underway(c: Config, names: set<string>, keys: set<string>, s: Cluster) {
    Inv(c, names, s) && forall n :: n in s ==> Stocked(keys, s[n])
  }

  /** The keys that are stored somewhere. */
  function KeysOf(s: Cluster): set<string> {
    set n, k | n in s && k in s[n].store :: k
  }

  ghost predicate AllInHandStored(s: Cluster) {
    forall n :: n in s ==> InHandStored(s[n].task, s[n].store)
  }

  lemma StepInHandStored(c: Config, s: Cluster, step: Step)
    requires Proper(s, step) && AllInHandStored(s)
    ensures AllInHandStored(Apply(c, s, step))
  {
    Effect(c, s, step);
  }

  lemma {:induction false} RunInHandStored(c: Config, names: set<string>, s: Cluster, steps: seq<Step>)
    requires Inv(c, names, s) && Legal(c, s, steps) && AllInHandStored(s)
    ensures AllInHandStored(Run(c, s, steps))
    decreases |steps|
  {
    if steps != [] {
      InvProper(c, names, s, steps[0]);
      StepInv(c, names, s, steps[0]);
      StepInHandStored(c, s, steps[0]);
      RunInHandStored(c, names, Apply(c, s, steps[0]), steps[1..]);
    }
  }

  lemma InHandStoredFromStart(c: Config, names: set<string>, steps: seq<Step>)
    requires "" !in names && Legal(c, Start(c, names), steps)
    ensures AllInHandStored(Run(c, Start(c, names), steps))
  {
    StartInv(c, names);
    RunInHandStored(c, names, Start(c, names), steps);
  }

  lemma ReachableInHandStored(c: Config, names: set<string>, s: Cluster)
    requires "" !in names && Reachable(c, names, s)
    ensures Inv(c, names, s) && AllInHandStored(s)
  {
    var steps :| Legal(c, Start(c, names), steps) && s == Run(c, Start(c, names), steps);
    InHandStoredFromStart(c, names, steps);
    StartInv(c, names);
    RunInv(c, names, Start(c, names), steps);
  }

  /** Every reachable state is one of these, with the keys that it stores. */
  lemma ReachableUnderway(c: Config, names: set<string>, s: Cluster)
    requires "" !in names && Reachable(c, names, s)
    ensures Underway(c, names, KeysOf(s), s)
  {
    ReachableInHandStored(c, names, s);
    StockedWithAll(s);
  }

  lemma StockedWithAll(s: Cluster)
    requires AllInHandStored(s)
    ensures forall n :: n in s ==> Stocked(KeysOf(s), s[n])
  {
    forall n, k | n in s && k in s[n].store
      ensures k in KeysOf(s)
    {
    }
  }

  lemma StepUnderway(c: Config, names: set<string>, keys: set<string>, s: Cluster, step: Step)
    requires Underway(c, names, keys, s) && Enabled(s, step) && Undisturbed(step)
    ensures Underway(c, names, keys, Apply(c, s, step))
  {
    InvProper(c, names, s, step);
    StepInv(c, names, s, step);
    forall n | n in s
      ensures Stocked(keys, Apply(c, s, step)[n])
    {
      StepStocked(c, keys, s, step, n);
    }
  }

  lemma StepStocked(c: Config, keys: set<string>, s: Cluster, step: Step, n: string)
    requires Proper(s, step) && Undisturbed(step) && n in s && Stocked(keys, s[n]) && Stocked(keys, s[step.at])
    ensures Stocked(keys, Apply(c, s, step)[n])
  {
    Effect(c, s, step);
  }

  lemma UnderwayOrderly(c: Config, names: set<string>, keys: set<string>, s: Cluster, n: string)
    requires Underway(c, names, keys, s) && n in s && forall k :: k in keys ==> Untied(c, names, k)
    ensures Orderly(c, keys, n, s[n])
  {
    assert NodeInv(c, names, n, s[n]) && Stocked(keys, s[n]);
    SendsNearer(c, names, keys, n, s[n].task);
  }

  lemma SendsNearer(c: Config, names: set<string>, keys: set<string>, n: string, task: Task)
    requires TaskInv(c, names, n, task) && n in names && (task.Sending? ==> Untied(c, names, task.pair.key))
    ensures task.Sending? && Accepts(task.pair) ==>
              Rank(c, task.to, c.sum64(task.pair.key)) < Rank(c, n, c.sum64(task.pair.key))
  {
  }

  /** From any state of the invariant, whatever joins, leaves, writes and
      failures led to it and wherever keys have been left: as long as no two
      nodes are equally near to a stored key, no undisturbed run is longer than
      the work there is. `ks` lists the stored keys, `ids` the nodes. */
  lemma JoinsEnd(
      c: Config, names: set<string>, s: Cluster, steps: seq<Step>, ks: seq<string>, ids: seq<string>)
    requires Underway(c, names, Elements(ks), s) && forall k :: k in ks ==> Untied(c, names, k)
    requires Legal(c, s, steps) && AllUndisturbed(steps)
    requires NoDuplicates(ids) && Elements(ids) == s.Keys && NoDuplicates(ks)
    ensures |steps| <= TotalWork(c, ks, s, ids)
  {
    var good := (t: Cluster) => Underway(c, names, Elements(ks), t);
    forall t: Cluster, n | good(t) && n in t
      ensures Orderly(c, Elements(ks), n, t[n])
    {
      UnderwayOrderly(c, names, Elements(ks), t, n);
    }
    forall t: Cluster, step | good(t) && Enabled(t, step) && Undisturbed(step)
      ensures good(Apply(c, t, step))
    {
      StepUnderway(c, names, Elements(ks), t, step);
    }
    RunWorks(c, good, s, steps, ks, ids);
  }

  // ----- gatherings in which every key has one place to go

  ghost predicate Peaceful(c: Config, members: set<string>, joiners: set<string>, keys: set<string>, s0: Cluster) {
    && Gathering(c, members, joiners, s0) && Favourable(c, members, joiners, s0)
    && forall n :: n in s0 ==> s0[n].store.Keys <= keys
  }

  /** Undisturbed steps lead to the state from such a gathering. */
  ghost predicate Arises(
      c: Config, members: set<string>, joiners: set<string>, keys: set<string>, s0: Cluster, s: Cluster) {
    Peaceful(c, members, joiners, keys, s0) && exists steps :: Leads(c, s0, steps, s)
  }

  lemma ArisesFirst(c: Config, members: set<string>, joiners: set<string>, keys: set<string>, s0: Cluster)
    requires Peaceful(c, members, joiners, keys, s0)
    ensures Arises(c, members, joiners, keys, s0, s0)
  {
    assert Leads(c, s0, [], s0);
  }

  lemma ArisesNext(
      c: Config, members: set<string>, joiners: set<string>, keys: set<string>, s0: Cluster, s: Cluster, step: Step)
    requires Arises(c, members, joiners, keys, s0, s) && Enabled(s, step) && Undisturbed(step)
    ensures Arises(c, members, joiners, keys, s0, Apply(c, s, step))
  {
    var steps :| Leads(c, s0, steps, s);
    OneStep(c, s, step);
    LeadsOn(c, s0, steps, s, [step], Apply(c, s, step));
  }

  lemma ArisenOrderly(
      c: Config, members: set<string>, joiners: set<string>, keys: set<string>, s0: Cluster, s: Cluster, n: string)
    requires Arises(c, members, joiners, keys, s0, s) && n in s
    ensures Orderly(c, keys, n, s[n])
  {
    var steps :| Leads(c, s0, steps, s);
    forall k | k in s[n].store
      ensures k in keys
    {
      var a := CameFromMember(c, members, joiners, s0, steps, n, k);
    }
    var task := s[n].task;
    if task.Sending? || task.Deleting? {
      InHandAtMember(c, members, joiners, s0, steps, n, if task.Sending? then task.pair.key else task.key);
    }
  }

  /** There, nodes may tie for a key behind the place it goes to. */
  lemma PeacefulJoinsEnd(
      c: Config, members: set<string>, joiners: set<string>, s0: Cluster, steps: seq<Step>, ks: seq<string>,
      ids: seq<string>)
    requires Peaceful(c, members, joiners, Elements(ks), s0) && Legal(c, s0, steps) && AllUndisturbed(steps)
    requires NoDuplicates(ids) && Elements(ids) == s0.Keys && NoDuplicates(ks)
    ensures |steps| <= TotalWork(c, ks, s0, ids)
  {
    var good := (t: Cluster) => Arises(c, members, joiners, Elements(ks), s0, t);
    forall t: Cluster, n | good(t) && n in t
      ensures Orderly(c, Elements(ks), n, t[n])
    {
      ArisenOrderly(c, members, joiners, Elements(ks), s0, t, n);
    }
    forall t: Cluster, step | good(t) && Enabled(t, step) && Undisturbed(step)
      ensures good(Apply(c, t, step))
    {
      ArisesNext(c, members, joiners, Elements(ks), s0, t, step);
    }
    ArisesFirst(c, members, joiners, Elements(ks), s0);
    RunWorks(c, good, s0, steps, ks, ids);
  }

  // ----- how much work there is at most

  lemma {:induction false} StoreWorkBounded(c: Config, names: set<string>, n: string, nd: Node, ks: seq<string>)
    ensures StoreWork(c, names, n, nd, ks) <= |ks| * (4 * |names|)
  {
    if ks != [] {
      var near := set m | m in names && Rank(c, m, c.sum64(ks[0])) < Rank(c, n, c.sum64(ks[0]));
      SubsetCardinality(near, names);
      StoreWorkBounded(c, names, n, nd, ks[1..]);
      OneLess(|ks|, 4 * |names|, |ks[1..]|);
    }
  }

  lemma Times(a: nat, b: nat, n: nat)
    requires a <= b
    ensures a * n <= b * n
  {
  }

  lemma IdleNodeWork(c: Config, names: set<string>, ks: seq<string>, n: string, nd: Node)
    requires nd.task.Idle?
    ensures NodeWork(c, names, ks, n, nd) <= |names| * (8 * |ks| + 2)
  {
    SubsetCardinality(names - Elements(nd.view.nodes), names);
    Times(Unheard(names, nd.view), |names|, 4 * |ks| + 2);
    StoreWorkBounded(c, names, n, nd, ks);
    Distributes(|names|, |ks|);
  }

  lemma Distributes(n: nat, k: nat)
    ensures n * (4 * k + 2) + k * (4 * n) == n * (8 * k + 2)
  {
  }

  /** Without a loop running, N nodes and K keys make at most N * N * (8 * K + 2) steps. */
  lemma {:induction false} IdleWork(c: Config, ks: seq<string>, s: Cluster, ids: seq<string>)
    requires Elements(ids) <= s.Keys && forall n :: n in s ==> s[n].task.Idle?
    ensures TotalWork(c, ks, s, ids) <= |ids| * (|s.Keys| * (8 * |ks| + 2))
  {
    if ids != [] {
      assert ids[0] in Elements(ids) && Elements(ids[1..]) <= Elements(ids);
      IdleNodeWork(c, s.Keys, ks, ids[0], s[ids[0]]);
      IdleWork(c, ks, s, ids[1..]);
      OneLess(|ids|, |s.Keys| * (8 * |ks| + 2), |ids[1..]|);
    }
  }
}
