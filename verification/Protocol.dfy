/** The cluster as a state machine: every node has its own view of the
    membership, its own store and its own place in the transfer loop of
    NotifyJoin. One step is one thing one node does, so that a run is any
    interleaving of the nodes' work. Stores are the non-evicting ones. */
module Protocol {
  import opened Values
  import opened HashRing
  import opened Grpc
  import opened GrpcPool
  import opened RingTheory

  /** Where a node is in the transfer loop. `pending` are the keys the iteration
      over the store has still to produce. */
  datatype Task =
    | Idle
    | Scanning(pending: set<string>)
    | Sending(pair: KeyValuePair, to: string, pending: set<string>)
    | Deleting(key: string, pending: set<string>)

  datatype Node = Node(view: RingState, pool: map<string, string>, store: map<string, Cell>, task: Task)

  type Cluster = map<string, Node>

  /** A joining node's metadata: parsed, or replaced by an address made up from its IP. */
  datatype Meta = Parsed(addr: string) | Unparsable(fallback: string)

  /** How a remote write ends: done, failed without effect, or done but reported as failed. */
  datatype Outcome = Acked | Refused | Unacked

  datatype Step =
    | Join(at: string, who: string, meta: Meta)
    | Leave(at: string, who: string)
    | Visit(at: string, key: string, dials: bool)
    | Deliver(at: string, outcome: Outcome, seen: bool)
    | Delete(at: string)
    | Finish(at: string)
    | ClientWrite(at: string, key: string, value: Value, seen: bool)

  // ----- what one node does

  /** NotifyJoin up to the loop. Without metadata there is no transfer. */
  function BeginJoin(c: Config, nd: Node, name: string, meta: Meta): Node {
    var view := Add(c, nd.view, name);
    match meta
    case Parsed(addr) => Node(view, WithAddress(nd.pool, name, addr), nd.store, Scanning(nd.store.Keys))
    case Unparsable(fallback) => Node(view, WithAddress(nd.pool, name, fallback), nd.store, Idle)
  }

  function NotifyLeave(nd: Node, name: string): Node {
    nd.(view := Remove(nd.view, name), pool := nd.pool - {name})
  }

  /** One turn of the loop up to the remote write. */
  function VisitKey(nd: Node, self: string, key: string, dials: bool): Node
    requires nd.task.Scanning?
  {
    var pending := nd.task.pending - {key};
    if key !in nd.store then nd.(task := Scanning(pending))
    else
      var cell := nd.store[key];
      var target := Owner(nd.view.ring, cell.hash);
      if target == self then nd.(task := Scanning(pending))
      else if target !in nd.pool || !dials then nd.(task := Idle)
      else nd.(task := Sending(KeyValuePair(key, cell.hash, cell.value), target, pending))
  }

  /** The sender's side of the remote write's end. */
  function Answered(nd: Node, acked: bool): Node
    requires nd.task.Sending?
  {
    nd.(task := if acked then Deleting(nd.task.pair.key, nd.task.pending) else Idle)
  }

  /** The local delete that follows an acknowledged write. */
  function DeleteKey(nd: Node): Node
    requires nd.task.Deleting?
  {
    nd.(store := nd.store - {nd.task.key}, task := Scanning(nd.task.pending))
  }

  /** Stores a cell while a loop may be running over the same map: whether the
      loop will produce a key that arrives meanwhile is open (`seen`). */
  function Put(nd: Node, key: string, cell: Cell, seen: bool): Node {
    nd.(store := nd.store[key := cell],
        task := if nd.task.Idle? || !seen then nd.task else nd.task.(pending := nd.task.pending + {key}))
  }

  /** The receiver's side of a remote write: stored unchecked, whoever owns it. */
  function Receive(nd: Node, pair: KeyValuePair, seen: bool): Node {
    Put(nd, pair.key, Cell(pair.hash, Wire(pair.value)), seen)
  }

  // ----- what the cluster does

  /** Membership events reach a node one at a time, and not twice in a row for
      one member. */
  predicate Ready(nd: Node, step: Step) {
    match step
    case Join(at, who, _) => nd.task.Idle? && who != at && who !in nd.view.nodes
    case Leave(at, who) => nd.task.Idle? && who != at && who in nd.view.nodes
    case Visit(_, key, _) => nd.task.Scanning? && key in nd.task.pending
    case Deliver(_, _, _) => nd.task.Sending?
    case Delete(_) => nd.task.Deleting?
    case Finish(_) => nd.task.Scanning? && nd.task.pending == {}
    case ClientWrite(_, key, _, _) => key != ""
  }

  predicate Enabled(s: Cluster, step: Step) {
    && step.at in s && Ready(s[step.at], step)
    && (step.Join? ==> step.who in s)
    && (step.Deliver? ==> s[step.at].task.to in s)
  }

  /** What the step does to the node that takes it. */
  function Local(c: Config, nd: Node, step: Step): Node
    requires Ready(nd, step)
  {
    match step
    case Join(_, who, meta) => BeginJoin(c, nd, who, meta)
    case Leave(_, who) => NotifyLeave(nd, who)
    case Visit(at, key, dials) => VisitKey(nd, at, key, dials)
    case Deliver(_, outcome, _) => Answered(nd, Accepts(nd.task.pair) && outcome == Acked)
    case Delete(_) => DeleteKey(nd)
    case Finish(_) => nd.(task := Idle)
    case ClientWrite(_, key, value, seen) => Put(nd, key, Cell(c.sum64(key), value), seen)
  }

  /** The step stores a pair at another node. */
  predicate Transmits(s: Cluster, step: Step)
    requires Enabled(s, step)
  {
    step.Deliver? && step.outcome != Refused && Accepts(s[step.at].task.pair)
  }

  function Apply(c: Config, s: Cluster, step: Step): (s': Cluster)
    requires Enabled(s, step)
    ensures s'.Keys == s.Keys
  {
    var task := s[step.at].task;
    var s' := if Transmits(s, step) then s[task.to := Receive(s[task.to], task.pair, step.seen)] else s;
    s'[step.at := Local(c, s'[step.at], step)]
  }

  /** Every node begins alone: listed in its own view, with an empty store. */
  function Start(c: Config, names: set<string>): Cluster {
    map n | n in names :: Node(Add(c, EMPTY, n), map[], map[], Idle)
  }

  predicate Legal(c: Config, s: Cluster, steps: seq<Step>)
    decreases |steps|
  {
    steps == [] || (Enabled(s, steps[0]) && Legal(c, Apply(c, s, steps[0]), steps[1..]))
  }

  function Run(c: Config, s: Cluster, steps: seq<Step>): (s': Cluster)
    requires Legal(c, s, steps)
    ensures s'.Keys == s.Keys
    decreases |steps|
  {
    if steps == [] then s else Run(c, Apply(c, s, steps[0]), steps[1..])
  }

  ghost predicate Reachable(c: Config, names: set<string>, s: Cluster) {
    exists steps :: Legal(c, Start(c, names), steps) && s == Run(c, Start(c, names), steps)
  }

  ghost predicate Held(s: Cluster, key: string) {
    exists n :: n in s && key in s[n].store
  }

  /** Some node holds the cell under the key. */
  ghost predicate StoredSomewhere(s: Cluster, key: string, cell: Cell) {
    exists n :: n in s && key in s[n].store && s[n].store[key] == cell
  }

  // ----- what every step keeps

  ghost predicate NodeInv(c: Config, names: set<string>, n: string, nd: Node) {
    && WellFormed(c, nd.view) && n in nd.view.nodes && Elements(nd.view.nodes) <= names
    && nd.pool.Keys <= Elements(nd.view.nodes) - {n, ""}
    && (forall k :: k in nd.store ==> k != "" && nd.store[k].hash == c.sum64(k))
    && TaskInv(c, names, n, nd.task)
  }

  /** Whatever the view was, a key is only ever on its way to a node that is no
      further from it than the sender. */
  ghost predicate TaskInv(c: Config, names: set<string>, n: string, task: Task) {
    task.Sending? ==>
      && task.to in names && task.to != n && c.Count() > 0
      && task.pair.key != "" && task.pair.hash == c.sum64(task.pair.key)
      && Rank(c, task.to, task.pair.hash) <= Rank(c, n, task.pair.hash)
  }

  ghost predicate Inv(c: Config, names: set<string>, s: Cluster) {
    s.Keys == names && "" !in names && forall n :: n in s ==> NodeInv(c, names, n, s[n])
  }

  lemma StartInv(c: Config, names: set<string>)
    requires "" !in names
    ensures Inv(c, names, Start(c, names))
  {
    forall n | n in names
      ensures NodeInv(c, names, n, Start(c, names)[n])
    {
      StartNodeInv(c, names, n);
    }
  }

  lemma StartNodeInv(c: Config, names: set<string>, n: string)
    requires "" !in names && n in names
    ensures NodeInv(c, names, n, Start(c, names)[n])
  {
    assert WellFormed(c, EMPTY);
    AddWellFormed(c, EMPTY, n);
  }

  lemma BeginJoinInv(c: Config, names: set<string>, n: string, nd: Node, who: string, meta: Meta)
    requires NodeInv(c, names, n, nd) && who in names && who !in nd.view.nodes
    ensures NodeInv(c, names, n, BeginJoin(c, nd, who, meta))
  {
    AddWellFormed(c, nd.view, who);
    assert Elements(nd.view.nodes + [who]) == Elements(nd.view.nodes) + {who};
  }

  lemma NotifyLeaveInv(c: Config, names: set<string>, n: string, nd: Node, who: string)
    requires NodeInv(c, names, n, nd) && who != n
    ensures NodeInv(c, names, n, NotifyLeave(nd, who))
  {
    RemoveWellFormed(c, nd.view, who);
    assert n in Elements(nd.view.nodes) - {who};
  }

  /** A remote owner found in the pool is a member at least as near as the visitor. */
  lemma VisitInv(c: Config, names: set<string>, n: string, nd: Node, key: string, dials: bool)
    requires NodeInv(c, names, n, nd) && nd.task.Scanning?
    ensures NodeInv(c, names, n, VisitKey(nd, n, key, dials))
  {
    var nd' := VisitKey(nd, n, key, dials);
    if nd'.task.Sending? {
      var h := nd.store[key].hash;
      assert nd'.task.to in Elements(nd.view.nodes);
      if c.Count() == 0 {
        RingLength(c, nd.view);
        assert false;
      }
      OwnerHasLeastRank(c, nd.view, h);
    }
  }

  lemma LocalInv(c: Config, names: set<string>, nd: Node, step: Step)
    requires NodeInv(c, names, step.at, nd) && Ready(nd, step) && (step.Join? ==> step.who in names)
    ensures NodeInv(c, names, step.at, Local(c, nd, step))
  {
    match step
    case Join(at, who, meta) => BeginJoinInv(c, names, at, nd, who, meta);
    case Leave(at, who) => NotifyLeaveInv(c, names, at, nd, who);
    case Visit(at, key, dials) => VisitInv(c, names, at, nd, key, dials);
    case Deliver(at, outcome, seen) =>
    case Delete(at) =>
    case Finish(at) =>
    case ClientWrite(at, key, value, seen) =>
  }

  lemma ReceiveInv(c: Config, names: set<string>, n: string, nd: Node, pair: KeyValuePair, seen: bool)
    requires NodeInv(c, names, n, nd) && pair.key != "" && pair.hash == c.sum64(pair.key)
    ensures NodeInv(c, names, n, Receive(nd, pair, seen))
  {
  }

  /** Nobody writes remotely to itself. */
  predicate Proper(s: Cluster, step: Step) {
    Enabled(s, step) && (step.Deliver? ==> s[step.at].task.to != step.at)
  }

  lemma InvProper(c: Config, names: set<string>, s: Cluster, step: Step)
    requires Inv(c, names, s) && Enabled(s, step)
    ensures Proper(s, step) && TaskInv(c, names, step.at, s[step.at].task) && WellFormed(c, s[step.at].view)
  {
    assert NodeInv(c, names, step.at, s[step.at]);
  }

  /** A step changes the acting node and, if it transmits, the receiver's store. */
  lemma Effect(c: Config, s: Cluster, step: Step)
    requires Proper(s, step)
    ensures Apply(c, s, step).Keys == s.Keys
    ensures forall n :: n in s ==>
              Apply(c, s, step)[n] ==
              if n == step.at then Local(c, s[n], step)
              else if Transmits(s, step) && n == s[step.at].task.to then Receive(s[n], s[step.at].task.pair, step.seen)
              else s[n]
  {
  }

  lemma StepNodeInv(c: Config, names: set<string>, s: Cluster, step: Step, n: string)
    requires Enabled(s, step) && (step.Join? ==> step.who in names) && n in s
    requires NodeInv(c, names, step.at, s[step.at]) && NodeInv(c, names, n, s[n])
    ensures NodeInv(c, names, n, Apply(c, s, step)[n])
  {
    Effect(c, s, step);
    if n == step.at {
      LocalInv(c, names, s[n], step);
    } else if Transmits(s, step) && n == s[step.at].task.to {
      ReceiveInv(c, names, n, s[n], s[step.at].task.pair, step.seen);
    }
  }

  lemma StepInv(c: Config, names: set<string>, s: Cluster, step: Step)
    requires Inv(c, names, s) && Enabled(s, step)
    ensures Inv(c, names, Apply(c, s, step))
  {
    var s' := Apply(c, s, step);
    assert NodeInv(c, names, step.at, s[step.at]);
    forall n | n in s'
      ensures NodeInv(c, names, n, s'[n])
    {
      assert NodeInv(c, names, n, s[n]);
      StepNodeInv(c, names, s, step, n);
    }
  }

  lemma {:induction false} RunInv(c: Config, names: set<string>, s: Cluster, steps: seq<Step>)
    requires Inv(c, names, s) && Legal(c, s, steps)
    ensures Inv(c, names, Run(c, s, steps))
    decreases |steps|
  {
    if steps != [] {
      StepInv(c, names, s, steps[0]);
      RunInv(c, names, Apply(c, s, steps[0]), steps[1..]);
    }
  }

  /** What every step of a kind keeps, a run of such steps keeps. */
  lemma {:induction false} RunKeeps(c: Config, s: Cluster, steps: seq<Step>, kind: Step -> bool, inv: Cluster -> bool)
    requires Legal(c, s, steps) && (forall i :: 0 <= i < |steps| ==> kind(steps[i])) && inv(s)
    requires forall t: Cluster, step :: inv(t) && Enabled(t, step) && kind(step) ==> inv(Apply(c, t, step))
    ensures inv(Run(c, s, steps))
    decreases |steps|
  {
    if steps != [] {
      RunKeeps(c, Apply(c, s, steps[0]), steps[1..], kind, inv);
    }
  }

  /** What every step of a kind shows where the invariant holds, all steps of such a run show. */
  lemma {:induction false} RunShows(
      c: Config, s: Cluster, steps: seq<Step>, kind: Step -> bool, inv: Cluster -> bool, shows: Step -> bool)
    requires Legal(c, s, steps) && (forall i :: 0 <= i < |steps| ==> kind(steps[i])) && inv(s)
    requires forall t: Cluster, step :: inv(t) && Enabled(t, step) && kind(step) ==>
               inv(Apply(c, t, step)) && shows(step)
    ensures forall i :: 0 <= i < |steps| ==> shows(steps[i])
    decreases |steps|
  {
    if steps != [] {
      RunShows(c, Apply(c, s, steps[0]), steps[1..], kind, inv, shows);
      assert forall i :: 0 < i < |steps| ==> steps[i] == steps[1..][i - 1];
    }
  }

  lemma {:induction false} RunConcat(c: Config, s: Cluster, front: seq<Step>, back: seq<Step>)
    requires Legal(c, s, front) && Legal(c, Run(c, s, front), back)
    ensures Legal(c, s, front + back) && Run(c, s, front + back) == Run(c, Run(c, s, front), back)
    decreases |front|
  {
    if front == [] {
      assert front + back == back;
    } else {
      RunConcat(c, Apply(c, s, front[0]), front[1..], back);
      assert (front + back)[1..] == front[1..] + back;
    }
  }

  /** The last step of a run. */
  lemma LastStep(c: Config, s: Cluster, steps: seq<Step>, step: Step)
    requires Legal(c, s, steps + [step])
    ensures Legal(c, s, steps) && Enabled(Run(c, s, steps), step)
    ensures Run(c, s, steps + [step]) == Apply(c, Run(c, s, steps), step)
    decreases |steps|
  {
    if steps == [] {
      assert [] + [step] == [step] && [step][1..] == [];
    } else {
      assert (steps + [step])[1..] == steps[1..] + [step];
      LastStep(c, Apply(c, s, steps[0]), steps[1..], step);
    }
  }

  lemma OneStep(c: Config, s: Cluster, step: Step)
    requires Enabled(s, step)
    ensures Legal(c, s, [step]) && Run(c, s, [step]) == Apply(c, s, step)
  {
    assert [step][1..] == [];
  }
}
