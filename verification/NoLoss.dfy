/** No key is lost while nodes join, however their transfer loops interleave
    and whichever remote writes fail; and exactly when that holds. */
module NoLoss {
  import opened Values
  import opened HashRing
  import opened Grpc
  import opened RingTheory
  import opened Protocol

  /** Some holder of the key is at most `rank` away from it. */
  ghost predicate HeldWithin(c: Config, s: Cluster, key: string, rank: int) {
    exists n :: n in s && key in s[n].store && Rank(c, n, c.sum64(key)) <= rank
  }

  /** A node about to delete its copy knows of a strictly nearer one. */
  ghost predicate NearerCopy(c: Config, s: Cluster, key: string) {
    forall n :: n in s && s[n].task.Deleting? && s[n].task.key == key ==>
      HeldWithin(c, s, key, Rank(c, n, c.sum64(key)) - 1)
  }

  /** The hand-off of the key cannot go wrong: it is never accepted by a remote
      node, or no two nodes are equally near to it. */
  ghost predicate Untied(c: Config, names: set<string>, key: string) {
    key == "" || c.sum64(key) == 0 || c.Count() == 0 || TieFreeAt(c, names, c.sum64(key))
  }

  // ----- one step

  /** A step other than a delete removes the key from no store. */
  lemma KeepsHolders(c: Config, s: Cluster, step: Step, key: string, n: string)
    requires Proper(s, step) && n in s && key in s[n].store
    ensures n in Apply(c, s, step)
    ensures key in Apply(c, s, step)[n].store || (step == Delete(n) && s[n].task.key == key)
  {
    Effect(c, s, step);
  }

  /** No step takes the key further away from the place its hash has on the circle. */
  lemma StepKeepsKey(c: Config, s: Cluster, step: Step, key: string, rank: int)
    requires Proper(s, step) && NearerCopy(c, s, key) && HeldWithin(c, s, key, rank)
    ensures HeldWithin(c, Apply(c, s, step), key, rank)
  {
    var n :| n in s && key in s[n].store && Rank(c, n, c.sum64(key)) <= rank;
    KeepsHolders(c, s, step, key, n);
    if key !in Apply(c, s, step)[n].store {
      var m :| m in s && key in s[m].store && Rank(c, m, c.sum64(key)) <= Rank(c, n, c.sum64(key)) - 1;
      KeepsHolders(c, s, step, key, m);
    }
  }

  /** An acknowledged remote write has stored the key strictly nearer than at the sender. */
  lemma DeliveredNearer(c: Config, names: set<string>, s: Cluster, step: Step, key: string)
    requires Proper(s, step) && step.Deliver? && s.Keys == names && Untied(c, names, key)
    requires TaskInv(c, names, step.at, s[step.at].task)
    requires s[step.at].task.pair.key == key && Transmits(s, step)
    ensures HeldWithin(c, Apply(c, s, step), key, Rank(c, step.at, c.sum64(key)) - 1)
  {
    var to := s[step.at].task.to;
    Effect(c, s, step);
    TransmitsNearer(c, names, s, step, key);
    assert key in Apply(c, s, step)[to].store;
  }

  lemma StepKeepsNearerCopy(c: Config, names: set<string>, s: Cluster, step: Step, key: string)
    requires Proper(s, step) && s.Keys == names && TaskInv(c, names, step.at, s[step.at].task)
    requires Untied(c, names, key) && NearerCopy(c, s, key)
    ensures NearerCopy(c, Apply(c, s, step), key)
  {
    var s' := Apply(c, s, step);
    Effect(c, s, step);
    forall n | n in s' && s'[n].task.Deleting? && s'[n].task.key == key
      ensures HeldWithin(c, s', key, Rank(c, n, c.sum64(key)) - 1)
    {
      if s[n].task.Deleting? && s[n].task.key == key {
        StepKeepsKey(c, s, step, key, Rank(c, n, c.sum64(key)) - 1);
      } else {
        assert n == step.at && step.Deliver?;
        DeliveredNearer(c, names, s, step, key);
      }
    }
  }

  // ----- whole runs

  lemma {:induction false} RunKeepsKey(
      c: Config, names: set<string>, s: Cluster, steps: seq<Step>, key: string, rank: int)
    requires Inv(c, names, s) && Legal(c, s, steps) && Untied(c, names, key) && NearerCopy(c, s, key)
    ensures NearerCopy(c, Run(c, s, steps), key)
    ensures HeldWithin(c, s, key, rank) ==> HeldWithin(c, Run(c, s, steps), key, rank)
    decreases |steps|
  {
    if steps != [] {
      StepInv(c, names, s, steps[0]);
      InvProper(c, names, s, steps[0]);
      StepKeepsNearerCopy(c, names, s, steps[0], key);
      if HeldWithin(c, s, key, rank) {
        StepKeepsKey(c, s, steps[0], key, rank);
      }
      RunKeepsKey(c, names, Apply(c, s, steps[0]), steps[1..], key, rank);
    }
  }

  lemma ReachableKeeps(c: Config, names: set<string>, s: Cluster, key: string)
    requires "" !in names && Reachable(c, names, s) && Untied(c, names, key)
    ensures Inv(c, names, s) && NearerCopy(c, s, key)
  {
    var before :| Legal(c, Start(c, names), before) && s == Run(c, Start(c, names), before);
    StartInv(c, names);
    RunInv(c, names, Start(c, names), before);
    RunKeepsKey(c, names, Start(c, names), before, key, 0);
  }

  /** From any reachable state on, however the run goes on, an untied key stays
      held, and its nearest holder never gets further away. */
  lemma KeysStay(c: Config, names: set<string>, s: Cluster, steps: seq<Step>, key: string, n: string)
    requires "" !in names && Reachable(c, names, s) && Legal(c, s, steps) && Untied(c, names, key)
    requires n in s && key in s[n].store
    ensures HeldWithin(c, Run(c, s, steps), key, Rank(c, n, c.sum64(key)))
    ensures Held(Run(c, s, steps), key)
  {
    ReachableKeeps(c, names, s, key);
    RunKeepsKey(c, names, s, steps, key, Rank(c, n, c.sum64(key)));
  }

  // ----- chains of hand-offs

  /** From where to where the key was stored remotely in a run. */
  ghost function Hops(c: Config, s: Cluster, steps: seq<Step>, key: string): set<(string, string)>
    requires Legal(c, s, steps)
    decreases |steps|
  {
    if steps == [] then {}
    else
      var task := s[steps[0].at].task;
      Hops(c, Apply(c, s, steps[0]), steps[1..], key)
      + if Transmits(s, steps[0]) && task.pair.key == key then {(steps[0].at, task.to)} else {}
  }

  ghost predicate Nearer(c: Config, names: set<string>, key: string, from: string, to: string) {
    from in names && to in names && Rank(c, to, c.sum64(key)) < Rank(c, from, c.sum64(key))
  }

  lemma TransmitsNearer(c: Config, names: set<string>, s: Cluster, step: Step, key: string)
    requires Proper(s, step) && step.Deliver? && s.Keys == names && Untied(c, names, key)
    requires TaskInv(c, names, step.at, s[step.at].task)
    requires s[step.at].task.pair.key == key && Transmits(s, step)
    ensures Nearer(c, names, key, step.at, s[step.at].task.to)
  {
    assert Rank(c, s[step.at].task.to, c.sum64(key)) != Rank(c, step.at, c.sum64(key));
  }

  lemma {:induction false} HopsGetNearer(c: Config, names: set<string>, s: Cluster, steps: seq<Step>, key: string)
    requires Inv(c, names, s) && Legal(c, s, steps) && Untied(c, names, key)
    ensures forall hop :: hop in Hops(c, s, steps, key) ==> Nearer(c, names, key, hop.0, hop.1)
    decreases |steps|
  {
    if steps != [] {
      StepInv(c, names, s, steps[0]);
      InvProper(c, names, s, steps[0]);
      HopsGetNearer(c, names, Apply(c, s, steps[0]), steps[1..], key);
      if Transmits(s, steps[0]) && s[steps[0].at].task.pair.key == key {
        TransmitsNearer(c, names, s, steps[0], key);
      }
    }
  }

  /** The path goes on, behind place `k`, along one of the hops. */
  ghost predicate Link(hops: set<(string, string)>, path: seq<string>, k: nat) {
    k + 1 < |path| ==> (path[k], path[k + 1]) in hops
  }

  /** Hand-offs of a key never run in a circle, whatever the nodes' views and
      however far apart in time: a chain visits each node at most once, and so
      has at most |names| - 1 hops. */
  lemma ChainsEnd(c: Config, names: set<string>, steps: seq<Step>, key: string, path: seq<string>)
    requires "" !in names && Legal(c, Start(c, names), steps) && Untied(c, names, key)
    requires |path| > 1 && forall k :: Link(Hops(c, Start(c, names), steps, key), path, k)
    ensures NoDuplicates(path) && |path| <= |names|
  {
    var hops := Hops(c, Start(c, names), steps, key);
    StartInv(c, names);
    HopsGetNearer(c, names, Start(c, names), steps, key);
    forall i, j | 0 <= i < j < |path|
      ensures Nearer(c, names, key, path[i], path[j])
    {
      Descends(c, names, key, hops, path, i, j);
    }
    forall j | 0 <= j < |path|
      ensures path[j] in names
    {
      assert Nearer(c, names, key, path[0], path[if j == 0 then 1 else j]);
    }
    DistinctCardinality(path);
    SubsetCardinality(Elements(path), names);
  }

  lemma {:induction false} Descends(
      c: Config, names: set<string>, key: string, hops: set<(string, string)>, path: seq<string>, i: nat, j: nat)
    requires i < j < |path| && forall k :: Link(hops, path, k)
    requires forall hop :: hop in hops ==> Nearer(c, names, key, hop.0, hop.1)
    ensures Nearer(c, names, key, path[i], path[j])
  {
    assert Link(hops, path, j - 1);
    if i + 1 < j {
      Descends(c, names, key, hops, path, i, j - 1);
    }
  }

  // ----- values

  /** What clients wrote in a run. */
  function Written(steps: seq<Step>): set<(string, Value)> {
    set step | step in steps && step.ClientWrite? :: (step.key, step.value)
  }

  /** Every copy, stored or on its way, is of a pair in `written`. */
  ghost predicate Genuine(s: Cluster, written: set<(string, Value)>) {
    forall n :: n in s ==>
      && (forall k :: k in s[n].store ==> (k, s[n].store[k].value) in written)
      && (s[n].task.Sending? ==> (s[n].task.pair.key, s[n].task.pair.value) in written)
  }

  lemma GenuineStep(c: Config, s: Cluster, step: Step, written: set<(string, Value)>)
    requires Proper(s, step) && Genuine(s, written)
    requires step.ClientWrite? ==> (step.key, step.value) in written
    ensures Genuine(Apply(c, s, step), written)
  {
    Effect(c, s, step);
    if step.Deliver? {
      AcceptsIff(s[step.at].task.pair);
    }
  }

  /** Nothing is invented or altered on the way: whatever a node stores for a
      key in the course of a run is a value some client wrote for that key. */
  lemma {:induction false} ValuesAreGenuine(
      c: Config, names: set<string>, s: Cluster, steps: seq<Step>, written: set<(string, Value)>)
    requires Inv(c, names, s) && Legal(c, s, steps) && Genuine(s, written) && Written(steps) <= written
    ensures Genuine(Run(c, s, steps), written)
    decreases |steps|
  {
    if steps != [] {
      StepInv(c, names, s, steps[0]);
      InvProper(c, names, s, steps[0]);
      assert steps[0].ClientWrite? ==> (steps[0].key, steps[0].value) in Written(steps);
      GenuineStep(c, s, steps[0], written);
      assert Written(steps[1..]) <= Written(steps);
      ValuesAreGenuine(c, names, Apply(c, s, steps[0]), steps[1..], written);
    }
  }

  // ----- when keys are safe

  ghost predicate Safe(c: Config, names: set<string>, key: string) {
    forall s: Cluster, steps :: Reachable(c, names, s) && Legal(c, s, steps) && Held(s, key) ==>
      Held(Run(c, s, steps), key)
  }

  /** A key is safe in every run exactly when no two nodes are equally near to
      it, or remote nodes refuse it anyway. */
  lemma SafeIffUntied(c: Config, names: set<string>, key: string)
    requires "" !in names
    ensures Safe(c, names, key) <==> Untied(c, names, key)
  {
    forall s: Cluster, steps | Untied(c, names, key) && Reachable(c, names, s) && Legal(c, s, steps) && Held(s, key)
      ensures Held(Run(c, s, steps), key)
    {
      var n :| n in s && key in s[n].store;
      KeysStay(c, names, s, steps, key, n);
    }
    if !Untied(c, names, key) {
      var a, b :| a in names && b in names && a != b && Rank(c, a, c.sum64(key)) == Rank(c, b, c.sum64(key));
      var s, steps := SwapLosesKey(c, names, key, a, b);
    }
  }

  // ----- how a tied key is lost

  const VALUE := Bytes([0])
  const META := Parsed("address")

  /** The five steps by which node `a` stores the key, learns of `b`, and hands the key over. */
  function Move(key: string, a: string, b: string, i: nat): Step {
    if i == 1 then ClientWrite(a, key, VALUE, false)
    else if i == 2 then Join(a, b, META)
    else if i == 3 then Visit(a, key, true)
    else if i == 4 then Deliver(a, Acked, false)
    else Delete(a)
  }

  /** Node `a` after `i` of these steps. */
  function Moved(c: Config, key: string, a: string, b: string, i: nat): Node {
    var cell := Cell(c.sum64(key), VALUE);
    var view := Add(c, EMPTY, a);
    if i == 0 then Node(view, map[], map[], Idle)
    else if i == 1 then Node(view, map[], map[key := cell], Idle)
    else Node(Add(c, view, b), map[b := META.addr], if i < 5 then map[key := cell] else map[],
              if i == 2 then Scanning({key})
              else if i == 3 then Sending(KeyValuePair(key, cell.hash, VALUE), b, {})
              else if i == 4 then Deleting(key, {})
              else Scanning({}))
  }

  ghost predicate Tied(c: Config, names: set<string>, key: string, a: string, b: string) {
    && "" !in names && a in names && b in names && a != b
    && key != "" && c.sum64(key) != 0 && c.Count() > 0
    && Rank(c, a, c.sum64(key)) == Rank(c, b, c.sum64(key))
  }

  lemma MoveStep(c: Config, names: set<string>, key: string, a: string, b: string, i: nat)
    requires Tied(c, names, key, a, b) && 0 < i <= 5
    ensures Ready(Moved(c, key, a, b, i - 1), Move(key, a, b, i))
    ensures Local(c, Moved(c, key, a, b, i - 1), Move(key, a, b, i)) == Moved(c, key, a, b, i)
  {
    LaterNodeWinsTie(c, a, b, c.sum64(key));
    assert {key} - {key} == {};
    var store: map<string, Cell> := map[key := Cell(c.sum64(key), VALUE)];
    assert store.Keys == {key} && store - {key} == map[];
  }

  /** Everything else as at the start. */
  function Duo(c: Config, names: set<string>, a: string, b: string, x: Node, y: Node): Cluster
    requires a in names && b in names
  {
    Start(c, names)[a := x][b := y]
  }

  /** Both nodes after `i` steps each. */
  function Both(c: Config, names: set<string>, key: string, a: string, b: string, i: nat): Cluster
    requires a in names && b in names
  {
    Duo(c, names, a, b, Moved(c, key, a, b, i), Moved(c, key, b, a, i))
  }

  /** The copy that arrives is the one the receiver has already. */
  lemma MoveInDuo(c: Config, names: set<string>, key: string, a: string, b: string, i: nat, y: Node)
    requires Tied(c, names, key, a, b) && 0 < i <= 5
    requires i == 4 ==> y.store == map[key := Cell(c.sum64(key), VALUE)]
    ensures var s := Duo(c, names, a, b, Moved(c, key, a, b, i - 1), y);
            Enabled(s, Move(key, a, b, i))
            && Apply(c, s, Move(key, a, b, i)) == Duo(c, names, a, b, Moved(c, key, a, b, i), y)
  {
    MoveStep(c, names, key, a, b, i);
    DuoStep(c, names, a, b, Moved(c, key, a, b, i - 1), Move(key, a, b, i), y);
  }

  lemma DuoStep(c: Config, names: set<string>, a: string, b: string, x: Node, step: Step, y: Node)
    requires a in names && b in names && a != b && step.at == a && Ready(x, step)
    requires step.Join? ==> step.who in names
    requires step.Deliver? ==> x.task.to == b && Receive(y, x.task.pair, step.seen) == y
    ensures Enabled(Duo(c, names, a, b, x, y), step)
    ensures Apply(c, Duo(c, names, a, b, x, y), step) == Duo(c, names, a, b, Local(c, x, step), y)
  {
    Effect(c, Duo(c, names, a, b, x, y), step);
  }

  /** Node `a` takes its i-th step, then node `b`. */
  lemma Round(c: Config, names: set<string>, key: string, a: string, b: string, i: nat)
    requires Tied(c, names, key, a, b) && 0 < i <= 5
    ensures var steps := [Move(key, a, b, i), Move(key, b, a, i)]; var s := Both(c, names, key, a, b, i - 1);
            Legal(c, s, steps) && Run(c, s, steps) == Both(c, names, key, a, b, i)
  {
    var x' := Moved(c, key, a, b, i);
    var y, y' := Moved(c, key, b, a, i - 1), Moved(c, key, b, a, i);
    MoveInDuo(c, names, key, a, b, i, y);
    MoveInDuo(c, names, key, b, a, i, x');
    DuoSymmetric(c, names, a, b, x', y);
    DuoSymmetric(c, names, a, b, x', y');
    TwoSteps(c, Both(c, names, key, a, b, i - 1), Move(key, a, b, i), Duo(c, names, a, b, x', y),
      Move(key, b, a, i), Both(c, names, key, a, b, i));
  }

  lemma DuoSymmetric(c: Config, names: set<string>, a: string, b: string, x: Node, y: Node)
    requires a in names && b in names && a != b
    ensures Duo(c, names, a, b, x, y) == Duo(c, names, b, a, y, x)
  {
  }

  lemma TwoSteps(c: Config, s: Cluster, step: Step, s': Cluster, step': Step, s'': Cluster)
    requires Enabled(s, step) && Apply(c, s, step) == s'
    requires Enabled(s', step') && Apply(c, s', step') == s''
    ensures Legal(c, s, [step, step']) && Run(c, s, [step, step']) == s''
  {
    OneStep(c, s, step);
    OneStep(c, s', step');
    RunConcat(c, s, [step], [step']);
    assert [step] + [step'] == [step, step'];
  }

  function Rounds(key: string, a: string, b: string, i: nat, j: nat): seq<Step>
    requires i <= j
  {
    if i == j then [] else Rounds(key, a, b, i, j - 1) + [Move(key, a, b, j), Move(key, b, a, j)]
  }

  lemma {:induction false} RunRounds(c: Config, names: set<string>, key: string, a: string, b: string, i: nat, j: nat)
    requires Tied(c, names, key, a, b) && i <= j <= 5
    ensures Legal(c, Both(c, names, key, a, b, i), Rounds(key, a, b, i, j))
    ensures Run(c, Both(c, names, key, a, b, i), Rounds(key, a, b, i, j)) == Both(c, names, key, a, b, j)
    decreases j
  {
    if i < j {
      RunRounds(c, names, key, a, b, i, j - 1);
      Round(c, names, key, a, b, j);
      RunConcat(c, Both(c, names, key, a, b, i), Rounds(key, a, b, i, j - 1), [Move(key, a, b, j), Move(key, b, a, j)]);
    }
  }

  lemma BothBegin(c: Config, names: set<string>, key: string, a: string, b: string)
    requires Tied(c, names, key, a, b)
    ensures Both(c, names, key, a, b, 0) == Start(c, names)
  {
  }

  lemma BothEnd(c: Config, names: set<string>, key: string, a: string, b: string)
    requires Tied(c, names, key, a, b)
    ensures !Held(Both(c, names, key, a, b, 5), key)
  {
  }

  /** Two nodes, equally near to a key that both hold, learn of each other. Each
      finds the other to be the owner, since the later entry wins a tie; each
      writes the key to the other; then each deletes its own. */
  lemma SwapLosesKey(c: Config, names: set<string>, key: string, a: string, b: string)
    returns (s: Cluster, steps: seq<Step>)
    requires Tied(c, names, key, a, b)
    ensures Reachable(c, names, s) && Legal(c, s, steps) && Held(s, key) && !Held(Run(c, s, steps), key)
  {
    BothBegin(c, names, key, a, b);
    RunRounds(c, names, key, a, b, 0, 1);
    RunRounds(c, names, key, a, b, 1, 5);
    s, steps := Both(c, names, key, a, b, 1), Rounds(key, a, b, 1, 5);
    BothEnd(c, names, key, a, b);
    assert key in s[a].store;
  }
}
