/** Joins can be completed: from every state, undisturbed steps lead to one where
    everybody knows everybody. */
module JoinProgress {
  import opened Values
  import opened HashRing
  import opened Protocol
  import opened Joins

  // ----- getting somewhere

  /** The steps lead from one state to the other. */
  ghost predicate Leads(c: Config, s: Cluster, steps: seq<Step>, s': Cluster) {
    AllUndisturbed(steps) && Legal(c, s, steps) && Run(c, s, steps) == s'
  }

  lemma LeadsOn(c: Config, s: Cluster, front: seq<Step>, s': Cluster, back: seq<Step>, s'': Cluster)
    requires Leads(c, s, front, s') && Leads(c, s', back, s'')
    ensures Leads(c, s, front + back, s'')
  {
    RunConcat(c, s, front, back);
  }

  // ----- one node after the other

  /** A step of the transfer loop of `n`, behind which nothing arrives that another loop would see. */
  predicate InLoop(n: string, step: Step) {
    step.at == n && Undisturbed(step) && !step.Join? && (step.Deliver? ==> !step.seen)
  }

  /** Nothing happens to the other nodes, except that keys may arrive there. */
  ghost predicate Spares(s: Cluster, s': Cluster, touched: set<string>) {
    && s'.Keys == s.Keys
    && forall n :: n in s && n !in touched ==>
         s'[n].view == s[n].view && s'[n].task == s[n].task && s[n].store.Keys <= s'[n].store.Keys
  }

  function TaskWork(task: Task): nat {
    match task
    case Idle => 0
    case Scanning(pending) => 8 * |pending| + 1
    case Sending(_, _, pending) => 8 * |pending| + 8
    case Deleting(_, pending) => 8 * |pending| + 4
  }

  lemma LoopWorks(c: Config, nd: Node, step: Step)
    requires Ready(nd, step) && InLoop(step.at, step)
    ensures Local(c, nd, step).view == nd.view && TaskWork(Local(c, nd, step).task) < TaskWork(nd.task)
  {
    if step.Visit? {
      assert |nd.task.pending - {step.key}| == |nd.task.pending| - 1;
    }
  }

  lemma LoopSpares(c: Config, s: Cluster, step: Step)
    requires Proper(s, step) && InLoop(step.at, step)
    ensures Spares(s, Apply(c, s, step), {step.at})
    ensures Apply(c, s, step)[step.at].view == s[step.at].view
    ensures TaskWork(Apply(c, s, step)[step.at].task) < TaskWork(s[step.at].task)
  {
    Effect(c, s, step);
    LoopWorks(c, s[step.at], step);
  }

  /** All that is needed here of an invariant of the cluster: it is one, nobody
      writes remotely to itself, loops can go on, and views list the node itself
      and members only. */
  ghost predicate Sound(c: Config, good: Cluster -> bool) {
    && (forall t: Cluster, step :: good(t) && Enabled(t, step) ==> Proper(t, step) && good(Apply(c, t, step)))
    && (forall t: Cluster, n :: good(t) && n in t && !t[n].task.Idle? ==> CanLoop(t, n))
    && (forall t: Cluster, n :: good(t) && n in t ==> n in t[n].view.nodes && Elements(t[n].view.nodes) <= t.Keys)
  }

  ghost predicate CanLoop(t: Cluster, n: string) {
    exists step :: Enabled(t, step) && InLoop(n, step)
  }

  /** First one step, then others. */
  lemma LeadsFrom(c: Config, s: Cluster, step: Step, steps: seq<Step>, s': Cluster)
    requires Enabled(s, step) && Undisturbed(step) && Leads(c, Apply(c, s, step), steps, s')
    ensures Leads(c, s, [step] + steps, s')
  {
    assert ([step] + steps)[1..] == steps;
  }

  ghost predicate AllInLoop(n: string, steps: seq<Step>) {
    forall i :: 0 <= i < |steps| ==> InLoop(n, steps[i])
  }

  lemma LoopFrom(n: string, step: Step, steps: seq<Step>)
    requires InLoop(n, step) && AllInLoop(n, steps)
    ensures AllInLoop(n, [step] + steps)
  {
  }

  lemma SparesOn(s: Cluster, s': Cluster, s'': Cluster, touched: set<string>)
    requires Spares(s, s', touched) && Spares(s', s'', touched)
    ensures Spares(s, s'', touched)
  {
  }

  lemma LoopOnce(c: Config, good: Cluster -> bool, s: Cluster, n: string) returns (step: Step)
    requires Sound(c, good) && good(s) && n in s && !s[n].task.Idle?
    ensures Enabled(s, step) && InLoop(n, step) && good(Apply(c, s, step)) && Spares(s, Apply(c, s, step), {n})
    ensures Apply(c, s, step)[n].view == s[n].view && TaskWork(Apply(c, s, step)[n].task) < TaskWork(s[n].task)
  {
    assert CanLoop(s, n);
    step :| Enabled(s, step) && InLoop(n, step);
    LoopSpares(c, s, step);
  }

  /** A node's loop comes to its end. */
  lemma {:induction false} FinishLoop(c: Config, good: Cluster -> bool, s: Cluster, n: string)
    returns (steps: seq<Step>, s': Cluster)
    requires Sound(c, good) && good(s) && n in s
    ensures Leads(c, s, steps, s') && AllInLoop(n, steps)
    ensures good(s') && Spares(s, s', {n}) && s'[n].task.Idle? && s'[n].view == s[n].view
    decreases TaskWork(s[n].task)
  {
    if s[n].task.Idle? {
      steps, s' := [], s;
    } else {
      var step := LoopOnce(c, good, s, n);
      var s1 := Apply(c, s, step);
      steps, s' := FinishLoop(c, good, s1, n);
      LeadsFrom(c, s, step, steps, s');
      LoopFrom(n, step, steps);
      SparesOn(s, s1, s', {n});
      steps := [step] + steps;
    }
  }

  /** A step of the node, behind which nothing arrives that another loop would see. */
  predicate By(n: string, step: Step) {
    step.at == n && Undisturbed(step) && (step.Deliver? ==> !step.seen)
  }

  ghost predicate AllBy(n: string, steps: seq<Step>) {
    forall i :: 0 <= i < |steps| ==> By(n, steps[i])
  }

  /** A node whose loop is done hears of another. */
  lemma Hear(c: Config, good: Cluster -> bool, s: Cluster, n: string, who: string) returns (step: Step)
    requires Sound(c, good) && good(s) && n in s && s[n].task.Idle? && who in s && who !in Elements(s[n].view.nodes)
    ensures Enabled(s, step) && By(n, step)
    ensures good(Apply(c, s, step)) && Spares(s, Apply(c, s, step), {n})
    ensures Elements(Apply(c, s, step)[n].view.nodes) == Elements(s[n].view.nodes) + {who}
  {
    step := Join(n, who, Parsed("address"));
    assert n in Elements(s[n].view.nodes);
    Effect(c, s, step);
    assert Elements(s[n].view.nodes + [who]) == Elements(s[n].view.nodes) + {who};
  }

  lemma AllByConcat(n: string, front: seq<Step>, back: seq<Step>)
    requires AllBy(n, front) && AllBy(n, back)
    ensures AllBy(n, front + back)
  {
  }

  lemma LoopIsBy(n: string, steps: seq<Step>)
    requires AllInLoop(n, steps)
    ensures AllBy(n, steps)
  {
  }

  lemma HearNext(c: Config, good: Cluster -> bool, s: Cluster, n: string, who: string)
    returns (steps: seq<Step>, s': Cluster)
    requires Sound(c, good) && good(s) && n in s && who in s && who !in Elements(s[n].view.nodes)
    ensures Leads(c, s, steps, s') && AllBy(n, steps) && good(s') && Spares(s, s', {n})
    ensures Elements(s'[n].view.nodes) == Elements(s[n].view.nodes) + {who}
  {
    var s1;
    steps, s1 := FinishLoop(c, good, s, n);
    var step := Hear(c, good, s1, n, who);
    s' := Apply(c, s1, step);
    OneStep(c, s1, step);
    LeadsOn(c, s, steps, s1, [step], s');
    LoopIsBy(n, steps);
    AllByConcat(n, steps, [step]);
    SparesOn(s, s1, s', {n});
    steps := steps + [step];
  }

  /** A node hears of everybody. */
  lemma {:induction false} HearAll(c: Config, good: Cluster -> bool, s: Cluster, n: string)
    returns (steps: seq<Step>, s': Cluster)
    requires Sound(c, good) && good(s) && n in s
    ensures Leads(c, s, steps, s') && AllBy(n, steps)
    ensures good(s') && Spares(s, s', {n}) && s'[n].task.Idle? && Elements(s'[n].view.nodes) == s.Keys
    decreases |s.Keys - Elements(s[n].view.nodes)|
  {
    if s.Keys <= Elements(s[n].view.nodes) {
      steps, s' := FinishLoop(c, good, s, n);
      LoopIsBy(n, steps);
    } else {
      var who :| who in s.Keys && who !in Elements(s[n].view.nodes);
      var s1, rest;
      steps, s1 := HearNext(c, good, s, n, who);
      assert s.Keys - Elements(s1[n].view.nodes) == s.Keys - Elements(s[n].view.nodes) - {who};
      rest, s' := HearAll(c, good, s1, n);
      LeadsOn(c, s, steps, s1, rest, s');
      AllByConcat(n, steps, rest);
      SparesOn(s, s1, s', {n});
      steps := steps + rest;
    }
  }

  /** Everybody in `todo` hears of everybody. */
  lemma {:induction false} AllHear(c: Config, good: Cluster -> bool, s: Cluster, todo: set<string>)
    returns (steps: seq<Step>, s': Cluster)
    requires Sound(c, good) && good(s) && todo <= s.Keys
    ensures Leads(c, s, steps, s') && good(s') && Spares(s, s', todo)
    ensures forall n :: n in todo ==> s'[n].task.Idle? && Elements(s'[n].view.nodes) == s.Keys
    decreases |todo|
  {
    steps, s' := [], s;
    if n :| n in todo {
      var s1, rest;
      steps, s1 := HearAll(c, good, s, n);
      rest, s' := AllHear(c, good, s1, todo - {n});
      LeadsOn(c, s, steps, s1, rest, s');
      steps := steps + rest;
    }
  }

  // ----- from every state

  /** A loop can always go on. */
  lemma NextInLoop(c: Config, names: set<string>, s: Cluster, n: string)
    requires Inv(c, names, s) && n in s && !s[n].task.Idle?
    ensures CanLoop(s, n)
  {
    assert NodeInv(c, names, n, s[n]);
    StepOfTask(s, n);
  }

  lemma StepOfTask(s: Cluster, n: string)
    requires n in s && !s[n].task.Idle? && (s[n].task.Sending? ==> s[n].task.to in s)
    ensures CanLoop(s, n)
  {
    var step := Finish(n);
    match s[n].task {
      case Scanning(pending) =>
        if k :| k in pending {
          step := Visit(n, k, true);
        }
      case Sending(_, _, _) => step := Deliver(n, Acked, false);
      case Deleting(_, _) => step := Delete(n);
    }
    assert Enabled(s, step) && InLoop(n, step);
  }

  lemma InvIsSound(c: Config, names: set<string>, good: Cluster -> bool)
    requires forall t :: good(t) <==> Inv(c, names, t)
    ensures Sound(c, good)
  {
    forall t: Cluster, step | good(t) && Enabled(t, step)
      ensures Proper(t, step) && good(Apply(c, t, step))
    {
      InvProper(c, names, t, step);
      StepInv(c, names, t, step);
    }
    forall t: Cluster, n | good(t) && n in t && !t[n].task.Idle?
      ensures CanLoop(t, n)
    {
      NextInLoop(c, names, t, n);
    }
    forall t: Cluster, n | good(t) && n in t
      ensures n in t[n].view.nodes && Elements(t[n].view.nodes) <= t.Keys
    {
      assert NodeInv(c, names, n, t[n]);
    }
  }

  /** From every state there is, whatever joins, leaves, writes and failures led
      to it, undisturbed steps lead on to one where everybody knows everybody. */
  lemma JoinsComplete(c: Config, names: set<string>, s: Cluster) returns (steps: seq<Step>, s': Cluster)
    requires Inv(c, names, s)
    ensures Leads(c, s, steps, s') && Over(names, s')
  {
    var good := (t: Cluster) => Inv(c, names, t);
    InvIsSound(c, names, good);
    steps, s' := AllHear(c, good, s, names);
  }
}
