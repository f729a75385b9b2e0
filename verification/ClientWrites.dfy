/** Client writes while keys are being transferred: exactly when one is safe. */
module ClientWrites {
  import opened Values
  import opened HashRing
  import opened Grpc
  import opened Protocol
  import opened NoLoss

  predicate LeavesAlone(key: string, step: Step) {
    step.ClientWrite? ==> step.key != key
  }

  /** The cell a client wrote is held in every run that goes on from there
      without another write of the key. */
  ghost predicate Survives(c: Config, s: Cluster, key: string, cell: Cell) {
    forall steps :: Legal(c, s, steps) && (forall i :: 0 <= i < |steps| ==> LeavesAlone(key, steps[i])) ==>
      StoredSomewhere(Run(c, s, steps), key, cell)
  }

  // ----- one cell among older ones

  predicate Has(nd: Node, key: string, cell: Cell) {
    key in nd.store && nd.store[key] == cell
  }

  /** Some holder of the cell is at most `rank` away from the key. */
  ghost predicate CellWithin(c: Config, s: Cluster, key: string, cell: Cell, rank: int) {
    exists n :: n in s && Has(s[n], key, cell) && Rank(c, n, c.sum64(key)) <= rank
  }

  /** A node about to delete its copy of the key knows the cell to be strictly nearer. */
  ghost predicate NearerCell(c: Config, s: Cluster, key: string, cell: Cell) {
    forall n :: n in s && s[n].task.Deleting? && s[n].task.key == key ==>
      CellWithin(c, s, key, cell, Rank(c, n, c.sum64(key)) - 1)
  }

  /** No other cell of the key is sent such that it will be accepted, and only the
      nearest of all nodes may store one. */
  ghost predicate OthersRest(c: Config, names: set<string>, key: string, cell: Cell, n: string, nd: Node) {
    && (nd.task.Sending? && nd.task.pair.key == key && Accepts(nd.task.pair) ==>
          nd.task.pair == KeyValuePair(key, cell.hash, cell.value))
    && (key in nd.store && nd.store[key] != cell ==> NearestIn(c, names, c.sum64(key), n))
  }

  ghost predicate AllOthersRest(c: Config, names: set<string>, s: Cluster, key: string, cell: Cell) {
    forall n :: n in s ==> OthersRest(c, names, key, cell, n, s[n])
  }

  /** The nearest node is the owner in its own view, so it sends no copy away. */
  lemma NearestKeeps(c: Config, names: set<string>, n: string, task: Task)
    requires TaskInv(c, names, n, task) && task.Sending? && Accepts(task.pair) && n in names
    requires Untied(c, names, task.pair.key)
    ensures !NearestIn(c, names, c.sum64(task.pair.key), n)
  {
  }

  lemma ActorRests(c: Config, names: set<string>, key: string, cell: Cell, n: string, nd: Node, step: Step)
    requires OthersRest(c, names, key, cell, n, nd) && NodeInv(c, names, n, nd) && n in names && Untied(c, names, key)
    requires step.at == n && Ready(nd, step) && LeavesAlone(key, step) && cell.hash == c.sum64(key)
    requires TaskInv(c, names, n, Local(c, nd, step).task)
    ensures OthersRest(c, names, key, cell, n, Local(c, nd, step))
  {
    var task := Local(c, nd, step).task;
    if step.Visit? && task.Sending? && task.pair.key == key && Accepts(task.pair) {
      NearestKeeps(c, names, n, task);
    }
  }

  lemma ReceiverRests(
      c: Config, names: set<string>, key: string, cell: Cell, n: string, nd: Node, pair: KeyValuePair, seen: bool)
    requires OthersRest(c, names, key, cell, n, nd) && Accepts(pair)
    requires pair.key == key ==> pair == KeyValuePair(key, cell.hash, cell.value)
    ensures OthersRest(c, names, key, cell, n, Receive(nd, pair, seen))
  {
    AcceptsIff(pair);
  }

  lemma NodeRests(c: Config, names: set<string>, s: Cluster, step: Step, key: string, cell: Cell, n: string)
    requires Inv(c, names, s) && Enabled(s, step) && LeavesAlone(key, step) && n in s
    requires Untied(c, names, key) && AllOthersRest(c, names, s, key, cell) && cell.hash == c.sum64(key)
    ensures OthersRest(c, names, key, cell, n, Apply(c, s, step)[n])
  {
    InvProper(c, names, s, step);
    Effect(c, s, step);
    assert OthersRest(c, names, key, cell, n, s[n]);
    assert OthersRest(c, names, key, cell, step.at, s[step.at]);
    if n == step.at {
      assert NodeInv(c, names, n, s[n]);
      LocalInv(c, names, s[n], step);
      ActorRests(c, names, key, cell, n, s[n], step);
    } else if Transmits(s, step) && n == s[step.at].task.to {
      ReceiverRests(c, names, key, cell, n, s[n], s[step.at].task.pair, step.seen);
    }
  }

  lemma StepRests(c: Config, names: set<string>, s: Cluster, step: Step, key: string, cell: Cell)
    requires Inv(c, names, s) && Enabled(s, step) && LeavesAlone(key, step)
    requires Untied(c, names, key) && AllOthersRest(c, names, s, key, cell) && cell.hash == c.sum64(key)
    ensures AllOthersRest(c, names, Apply(c, s, step), key, cell)
  {
    forall n | n in Apply(c, s, step)
      ensures OthersRest(c, names, key, cell, n, Apply(c, s, step)[n])
    {
      NodeRests(c, names, s, step, key, cell, n);
    }
  }

  /** Only a delete takes the cell from a node. */
  lemma KeepsCell(c: Config, names: set<string>, s: Cluster, step: Step, key: string, cell: Cell, n: string)
    requires Proper(s, step) && LeavesAlone(key, step) && AllOthersRest(c, names, s, key, cell)
    requires n in s && Has(s[n], key, cell)
    ensures n in Apply(c, s, step)
    ensures Has(Apply(c, s, step)[n], key, cell) || (step == Delete(n) && s[n].task.key == key)
  {
    Effect(c, s, step);
    assert OthersRest(c, names, key, cell, step.at, s[step.at]);
    if step.Deliver? {
      AcceptsIff(s[step.at].task.pair);
    }
  }

  lemma StepKeepsCell(
      c: Config, names: set<string>, s: Cluster, step: Step, key: string, cell: Cell, rank: int)
    requires Proper(s, step) && LeavesAlone(key, step) && AllOthersRest(c, names, s, key, cell)
    requires NearerCell(c, s, key, cell) && CellWithin(c, s, key, cell, rank)
    ensures CellWithin(c, Apply(c, s, step), key, cell, rank)
  {
    var n :| n in s && Has(s[n], key, cell) && Rank(c, n, c.sum64(key)) <= rank;
    KeepsCell(c, names, s, step, key, cell, n);
    if !Has(Apply(c, s, step)[n], key, cell) {
      var m :| m in s && Has(s[m], key, cell) && Rank(c, m, c.sum64(key)) <= Rank(c, n, c.sum64(key)) - 1;
      KeepsCell(c, names, s, step, key, cell, m);
    }
  }

  /** What an acknowledged remote write leaves behind is the cell, strictly nearer. */
  lemma CellDelivered(c: Config, names: set<string>, s: Cluster, step: Step, key: string, cell: Cell)
    requires Proper(s, step) && step.Deliver? && s.Keys == names && Untied(c, names, key)
    requires TaskInv(c, names, step.at, s[step.at].task) && AllOthersRest(c, names, s, key, cell)
    requires s[step.at].task.pair.key == key && Transmits(s, step)
    ensures CellWithin(c, Apply(c, s, step), key, cell, Rank(c, step.at, c.sum64(key)) - 1)
  {
    var task := s[step.at].task;
    Effect(c, s, step);
    TransmitsNearer(c, names, s, step, key);
    assert OthersRest(c, names, key, cell, step.at, s[step.at]);
    AcceptsIff(task.pair);
    assert Has(Apply(c, s, step)[task.to], key, cell);
  }

  lemma StepKeepsNearerCell(c: Config, names: set<string>, s: Cluster, step: Step, key: string, cell: Cell)
    requires Proper(s, step) && s.Keys == names && TaskInv(c, names, step.at, s[step.at].task)
    requires LeavesAlone(key, step) && Untied(c, names, key)
    requires AllOthersRest(c, names, s, key, cell) && NearerCell(c, s, key, cell)
    ensures NearerCell(c, Apply(c, s, step), key, cell)
  {
    var s' := Apply(c, s, step);
    Effect(c, s, step);
    forall n | n in s' && s'[n].task.Deleting? && s'[n].task.key == key
      ensures CellWithin(c, s', key, cell, Rank(c, n, c.sum64(key)) - 1)
    {
      if s[n].task.Deleting? && s[n].task.key == key {
        StepKeepsCell(c, names, s, step, key, cell, Rank(c, n, c.sum64(key)) - 1);
      } else {
        assert n == step.at && step.Deliver?;
        CellDelivered(c, names, s, step, key, cell);
      }
    }
  }

  ghost predicate CellKept(c: Config, names: set<string>, s: Cluster, key: string, cell: Cell, rank: int) {
    && Inv(c, names, s) && AllOthersRest(c, names, s, key, cell)
    && NearerCell(c, s, key, cell) && CellWithin(c, s, key, cell, rank)
  }

  lemma StepKeepsKept(c: Config, names: set<string>, s: Cluster, step: Step, key: string, cell: Cell, rank: int)
    requires CellKept(c, names, s, key, cell, rank) && cell.hash == c.sum64(key)
    requires Untied(c, names, key) && Enabled(s, step) && LeavesAlone(key, step)
    ensures CellKept(c, names, Apply(c, s, step), key, cell, rank)
  {
    InvProper(c, names, s, step);
    StepRests(c, names, s, step, key, cell);
    StepKeepsNearerCell(c, names, s, step, key, cell);
    StepKeepsCell(c, names, s, step, key, cell, rank);
    StepInv(c, names, s, step);
  }

  lemma RunKeepsKept(
      c: Config, names: set<string>, s: Cluster, steps: seq<Step>, key: string, cell: Cell, rank: int)
    requires CellKept(c, names, s, key, cell, rank) && cell.hash == c.sum64(key)
    requires Untied(c, names, key) && Legal(c, s, steps)
    requires forall i :: 0 <= i < |steps| ==> LeavesAlone(key, steps[i])
    ensures StoredSomewhere(Run(c, s, steps), key, cell)
  {
    var inv := (t: Cluster) => CellKept(c, names, t, key, cell, rank);
    forall t: Cluster, step | inv(t) && Enabled(t, step) && LeavesAlone(key, step)
      ensures inv(Apply(c, t, step))
    {
      StepKeepsKept(c, names, t, step, key, cell, rank);
    }
    RunKeeps(c, s, steps, step => LeavesAlone(key, step), inv);
    var n :| n in Run(c, s, steps) && Has(Run(c, s, steps)[n], key, cell);
  }

  // ----- the write

  /** No other node is handing the key over, none but the nearest of all has a
      copy of it, and none has this very cell. */
  ghost predicate OthersAtRest(c: Config, s: Cluster, at: string, key: string, cell: Cell) {
    forall n :: n in s && n != at ==>
      && !(s[n].task.Sending? && s[n].task.pair.key == key) && !(s[n].task.Deleting? && s[n].task.key == key)
      && (key in s[n].store ==> s[n].store[key] != cell && NearestIn(c, s.Keys, c.sum64(key), n))
  }

  /** An older value of the key is on its way from the node, and will be accepted. */
  predicate Overtaking(nd: Node, key: string, value: Value) {
    nd.task.Sending? && nd.task.pair.key == key && Accepts(nd.task.pair) && nd.task.pair.value != value
  }

  /** An older value has arrived elsewhere, and the node is about to delete its copy. */
  predicate AboutToDelete(nd: Node, key: string) {
    nd.task.Deleting? && nd.task.key == key
  }

  lemma WriteIsKept(c: Config, names: set<string>, s: Cluster, at: string, key: string, value: Value, seen: bool)
    requires Inv(c, names, s) && at in s && key != "" && OthersAtRest(c, s, at, key, Cell(c.sum64(key), value))
    requires !Overtaking(s[at], key, value) && !AboutToDelete(s[at], key)
    ensures var s', cell := Apply(c, s, ClientWrite(at, key, value, seen)), Cell(c.sum64(key), value);
            CellKept(c, names, s', key, cell, Rank(c, at, c.sum64(key)))
  {
    var step, cell := ClientWrite(at, key, value, seen), Cell(c.sum64(key), value);
    var s' := Apply(c, s, step);
    InvProper(c, names, s, step);
    StepInv(c, names, s, step);
    Effect(c, s, step);
    forall n | n in s'
      ensures OthersRest(c, names, key, cell, n, s'[n]) && !AboutToDelete(s'[n], key)
    {
      WriterRests(c, names, s, step, key, cell, n);
    }
    assert Has(s'[at], key, cell);
  }

  lemma WriterRests(c: Config, names: set<string>, s: Cluster, step: Step, key: string, cell: Cell, n: string)
    requires Proper(s, step) && step.ClientWrite? && step.key == key && cell == Cell(c.sum64(key), step.value)
    requires TaskInv(c, names, step.at, s[step.at].task) && s.Keys == names && n in s
    requires OthersAtRest(c, s, step.at, key, cell)
    requires !Overtaking(s[step.at], key, step.value) && !AboutToDelete(s[step.at], key)
    ensures OthersRest(c, names, key, cell, n, Apply(c, s, step)[n]) && !AboutToDelete(Apply(c, s, step)[n], key)
  {
    Effect(c, s, step);
  }

  lemma AfterWrite(c: Config, names: set<string>, s: Cluster, at: string, key: string, value: Value, seen: bool)
    requires Inv(c, names, s) && at in s && key != "" && OthersAtRest(c, s, at, key, Cell(c.sum64(key), value))
    ensures var s' := Apply(c, s, ClientWrite(at, key, value, seen));
            && at in s' && key in s'[at].store && Lone(s', at, key, Cell(c.sum64(key), value))
            && (Overtaking(s'[at], key, value) <==> Overtaking(s[at], key, value))
            && (AboutToDelete(s'[at], key) <==> AboutToDelete(s[at], key))
            && (s'[at].task.Sending? ==> s'[at].task.to in s' && s'[at].task.to != at)
  {
    assert NodeInv(c, names, at, s[at]);
    Effect(c, s, ClientWrite(at, key, value, seen));
  }

  /** Nobody else has the cell. */
  ghost predicate Lone(s: Cluster, at: string, key: string, cell: Cell) {
    forall n :: n in s && n != at ==> !Has(s[n], key, cell)
  }

  /** A write of a key that its node is sending away is lost: the old value
      arrives, and the new one is deleted. */
  lemma OvertakenWrite(c: Config, s: Cluster, at: string, key: string, value: Value) returns (steps: seq<Step>)
    requires at in s && Lone(s, at, key, Cell(c.sum64(key), value)) && Overtaking(s[at], key, value)
    requires s[at].task.to in s && s[at].task.to != at
    ensures Legal(c, s, steps) && forall i :: 0 <= i < |steps| ==> LeavesAlone(key, steps[i])
    ensures !StoredSomewhere(Run(c, s, steps), key, Cell(c.sum64(key), value))
  {
    var deliver, delete := Deliver(at, Acked, false), Delete(at);
    var s1 := Apply(c, s, deliver);
    AcceptsIff(s[at].task.pair);
    Effect(c, s, deliver);
    Effect(c, s1, delete);
    TwoSteps(c, s, deliver, s1, delete, Apply(c, s1, delete));
    steps := [deliver, delete];
  }

  /** So is one that comes when the old value has already arrived. */
  lemma DeletedWrite(c: Config, s: Cluster, at: string, key: string, cell: Cell) returns (steps: seq<Step>)
    requires at in s && Lone(s, at, key, cell) && AboutToDelete(s[at], key)
    ensures Legal(c, s, steps) && forall i :: 0 <= i < |steps| ==> LeavesAlone(key, steps[i])
    ensures !StoredSomewhere(Run(c, s, steps), key, cell)
  {
    Effect(c, s, Delete(at));
    OneStep(c, s, Delete(at));
    steps := [Delete(at)];
  }

  /** When a client's write is safe: exactly if its node is not just sending an
      older value of the key away, nor about to delete one that it has sent. */
  lemma WriteSurvivesIff(
      c: Config, names: set<string>, s: Cluster, at: string, key: string, value: Value, seen: bool)
    requires Inv(c, names, s) && Untied(c, names, key)
    requires at in s && key != "" && OthersAtRest(c, s, at, key, Cell(c.sum64(key), value))
    ensures Survives(c, Apply(c, s, ClientWrite(at, key, value, seen)), key, Cell(c.sum64(key), value))
            <==> !Overtaking(s[at], key, value) && !AboutToDelete(s[at], key)
  {
    var step, cell := ClientWrite(at, key, value, seen), Cell(c.sum64(key), value);
    var s' := Apply(c, s, step);
    AfterWrite(c, names, s, at, key, value, seen);
    if Overtaking(s[at], key, value) {
      var steps := OvertakenWrite(c, s', at, key, value);
    } else if AboutToDelete(s[at], key) {
      var steps := DeletedWrite(c, s', at, key, cell);
    } else {
      WriteIsKept(c, names, s, at, key, value, seen);
      forall steps | Legal(c, s', steps) && forall i :: 0 <= i < |steps| ==> LeavesAlone(key, steps[i])
        ensures StoredSomewhere(Run(c, s', steps), key, cell)
      {
        RunKeepsKept(c, names, s', steps, key, cell, Rank(c, at, c.sum64(key)));
      }
    }
  }
}
