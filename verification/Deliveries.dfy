/** How a remote write can end, and that a loop one of whose writes has failed
    sends nothing more, until the next join starts another one. */
module Deliveries {
  import opened Values
  import opened Grpc
  import opened HashRing
  import opened Protocol

  /** The write has been done, and the sender knows. */
  predicate Succeeds(s: Cluster, step: Step)
    requires Enabled(s, step) && step.Deliver?
  {
    Accepts(s[step.at].task.pair) && step.outcome == Acked
  }

  /** The receiver has the pair, as it was sent, exactly if it accepts it and the
      call reaches it; whether the sender keeps its copy depends on the answer
      alone, and so does whether its loop goes on. */
  lemma DeliveryEnds(c: Config, s: Cluster, step: Step)
    requires Proper(s, step) && step.Deliver?
    ensures var p, task, s' := step.at, s[step.at].task, Apply(c, s, step);
            && s'.Keys == s.Keys
            && s'[task.to].store ==
               (if Accepts(task.pair) && step.outcome != Refused
                then s[task.to].store[task.pair.key := Cell(task.pair.hash, task.pair.value)] else s[task.to].store)
            && s'[p].store == s[p].store
            && (if Succeeds(s, step) then s'[p].task == Deleting(task.pair.key, task.pending) else s'[p].task.Idle?)
            && forall n :: n in s && n != p && n != task.to ==> s'[n] == s[n]
  {
    Effect(c, s, step);
    AcceptsIff(s[step.at].task.pair);
  }

  /** Nothing of a transfer. */
  predicate OutsideLoop(step: Step) {
    step.Leave? || step.ClientWrite? || step.Join?
  }

  predicate NoJoinAt(n: string, step: Step) {
    step.Join? ==> step.at != n
  }

  /** In the run, the node takes no step of a loop. */
  ghost predicate SendsNothing(n: string, steps: seq<Step>) {
    forall i :: 0 <= i < |steps| && steps[i].at == n ==> OutsideLoop(steps[i])
  }

  ghost predicate NoJoins(n: string, steps: seq<Step>) {
    forall i :: 0 <= i < |steps| ==> NoJoinAt(n, steps[i])
  }

  lemma StaysIdle(c: Config, s: Cluster, n: string, step: Step)
    requires Proper(s, step) && n in s && s[n].task.Idle? && NoJoinAt(n, step)
    ensures n in Apply(c, s, step) && Apply(c, s, step)[n].task.Idle?
    ensures s[n].store.Keys <= Apply(c, s, step)[n].store.Keys && (step.at == n ==> OutsideLoop(step))
  {
    Effect(c, s, step);
  }

  lemma IdleStep(c: Config, names: set<string>, s: Cluster, n: string, step: Step)
    requires Inv(c, names, s) && Enabled(s, step) && n in s && s[n].task.Idle? && NoJoinAt(n, step)
    ensures Inv(c, names, Apply(c, s, step)) && n in Apply(c, s, step) && Apply(c, s, step)[n].task.Idle?
    ensures s[n].store.Keys <= Apply(c, s, step)[n].store.Keys && (step.at == n ==> OutsideLoop(step))
  {
    InvProper(c, names, s, step);
    StaysIdle(c, s, n, step);
    StepInv(c, names, s, step);
  }

  /** The node is in no loop, and has these keys. */
  ghost predicate Resting(c: Config, names: set<string>, n: string, keys: set<string>, s: Cluster) {
    Inv(c, names, s) && n in s && s[n].task.Idle? && keys <= s[n].store.Keys
  }

  /** A node that is not in a loop takes no step of one, and loses no key, in any
      run without a join at that node. */
  lemma IdleSendsNothing(c: Config, names: set<string>, s: Cluster, n: string, steps: seq<Step>)
    requires Inv(c, names, s) && n in s && s[n].task.Idle? && Legal(c, s, steps) && NoJoins(n, steps)
    ensures SendsNothing(n, steps) && s[n].store.Keys <= Run(c, s, steps)[n].store.Keys
  {
    var kind, shows := (step: Step) => NoJoinAt(n, step), (step: Step) => step.at == n ==> OutsideLoop(step);
    var inv := (t: Cluster) => Resting(c, names, n, s[n].store.Keys, t);
    forall t: Cluster, step | inv(t) && Enabled(t, step) && kind(step)
      ensures inv(Apply(c, t, step)) && shows(step)
    {
      IdleStep(c, names, t, n, step);
    }
    RunKeeps(c, s, steps, kind, inv);
    RunShows(c, s, steps, kind, inv, shows);
  }

  /** After a remote write that failed, or was done but reported as failed, the
      loop is over: in every run that goes on from there without another join at
      the sender, that sends nothing, and keeps all it has. */
  lemma FailedWriteEndsLoop(c: Config, names: set<string>, s: Cluster, step: Step, steps: seq<Step>)
    requires Inv(c, names, s) && Enabled(s, step) && step.Deliver? && !Succeeds(s, step)
    requires Legal(c, Apply(c, s, step), steps) && NoJoins(step.at, steps)
    ensures SendsNothing(step.at, steps)
    ensures s[step.at].store.Keys <= Run(c, Apply(c, s, step), steps)[step.at].store.Keys
  {
    InvProper(c, names, s, step);
    StepInv(c, names, s, step);
    DeliveryEnds(c, s, step);
    IdleSendsNothing(c, names, Apply(c, s, step), step.at, steps);
  }

  /** So it is with a node that hears of another without metadata that parses. */
  lemma NoLoopWithoutMetadata(c: Config, names: set<string>, s: Cluster, step: Step, steps: seq<Step>)
    requires Inv(c, names, s) && Enabled(s, step) && step.Join? && step.meta.Unparsable?
    requires Legal(c, Apply(c, s, step), steps) && NoJoins(step.at, steps)
    ensures SendsNothing(step.at, steps)
    ensures s[step.at].store.Keys <= Run(c, Apply(c, s, step), steps)[step.at].store.Keys
  {
    InvProper(c, names, s, step);
    StepInv(c, names, s, step);
    Effect(c, s, step);
    IdleSendsNothing(c, names, Apply(c, s, step), step.at, steps);
  }

  lemma FailedVisit(c: Config, s: Cluster, step: Step)
    requires Proper(s, step) && step.Visit? && step.key in s[step.at].store
    requires var nd := s[step.at]; var owner := Owner(nd.view.ring, nd.store[step.key].hash);
             owner != step.at && (owner !in nd.pool || !step.dials)
    ensures Apply(c, s, step)[step.at] == s[step.at].(task := Idle)
  {
    Effect(c, s, step);
  }

  /** And with one that finds no connection to the owner of a key it visits. */
  lemma UnreachableEndsLoop(c: Config, names: set<string>, s: Cluster, step: Step, steps: seq<Step>)
    requires Inv(c, names, s) && Enabled(s, step) && step.Visit? && step.key in s[step.at].store
    requires var nd := s[step.at]; var owner := Owner(nd.view.ring, nd.store[step.key].hash);
             owner != step.at && (owner !in nd.pool || !step.dials)
    requires Legal(c, Apply(c, s, step), steps) && NoJoins(step.at, steps)
    ensures SendsNothing(step.at, steps)
    ensures s[step.at].store.Keys <= Run(c, Apply(c, s, step), steps)[step.at].store.Keys
  {
    InvProper(c, names, s, step);
    StepInv(c, names, s, step);
    FailedVisit(c, s, step);
    IdleSendsNothing(c, names, Apply(c, s, step), step.at, steps);
  }
}
