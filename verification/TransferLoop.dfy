/** The transfer loop of NotifyJoin, undisturbed by other nodes: what it hands
    over and what it leaves, for every order of the iteration and every behaviour
    of the network. */
module TransferLoop {
  import opened Values
  import opened HashRing
  import opened Grpc
  import opened Protocol
  import GrpcPool

  /** How the network treats one turn of the loop. */
  datatype Turn = Turn(dials: bool, answers: bool)

  function OneTurn(nd: Node, self: string, key: string, turn: Turn): (nd': Node)
    requires nd.task.Scanning?
    ensures nd'.task.Scanning? || nd'.task.Idle?
    ensures nd'.view == nd.view && nd'.pool == nd.pool
  {
    var nd' := VisitKey(nd, self, key, turn.dials);
    if nd'.task.Sending? then WriteEnds(nd', turn) else nd'
  }

  /** The remote write and, once it is acknowledged, the local delete. */
  function WriteEnds(nd: Node, turn: Turn): Node
    requires nd.task.Sending?
  {
    if Accepts(nd.task.pair) && turn.answers then DeleteKey(Answered(nd, true)) else Answered(nd, false)
  }

  /** After the first `n` turns over the keys in the order the iteration
      produces them; the first failure ends the loop. */
  function TurnsUpTo(nd: Node, self: string, order: seq<string>, turns: seq<Turn>, n: nat): (nd': Node)
    requires n <= |order| && n <= |turns| && (nd.task.Scanning? || nd.task.Idle?)
    ensures nd'.task.Scanning? || nd'.task.Idle?
    ensures nd'.view == nd.view && nd'.pool == nd.pool
  {
    if n == 0 then nd
    else
      var p := TurnsUpTo(nd, self, order, turns, n - 1);
      if p.task.Idle? then p else OneTurn(p, self, order[n - 1], turns[n - 1])
  }

  function Loop(nd: Node, self: string, order: seq<string>, turns: seq<Turn>): Node
    requires |turns| == |order| && (nd.task.Scanning? || nd.task.Idle?)
  {
    TurnsUpTo(nd, self, order, turns, |order|).(task := Idle)
  }

  /** What the first `n` turns sent and got acknowledged. */
  function SentUpTo(nd: Node, self: string, order: seq<string>, turns: seq<Turn>, n: nat): map<string, Cell>
    requires n <= |order| && n <= |turns| && (nd.task.Scanning? || nd.task.Idle?)
  {
    if n == 0 then map[]
    else
      var k, before := order[n - 1], TurnsUpTo(nd, self, order, turns, n - 1).store;
      var sent := SentUpTo(nd, self, order, turns, n - 1);
      if k in before && k !in TurnsUpTo(nd, self, order, turns, n).store then sent[k := before[k]] else sent
  }

  lemma {:induction false} TurnsPrefix(
      nd: Node, self: string, order: seq<string>, turns: seq<Turn>, turns': seq<Turn>, n: nat)
    requires n <= |order| && n <= |turns| && n <= |turns'| && (nd.task.Scanning? || nd.task.Idle?)
    requires forall i :: 0 <= i < n ==> turns[i] == turns'[i]
    ensures TurnsUpTo(nd, self, order, turns, n) == TurnsUpTo(nd, self, order, turns', n)
  {
    if n > 0 {
      TurnsPrefix(nd, self, order, turns, turns', n - 1);
    }
  }

  /** The loop loses and invents nothing: the cells at the node before are those
      there afterwards and those sent, and nothing sent is still there. */
  lemma {:induction false} LoopConserves(nd: Node, self: string, order: seq<string>, turns: seq<Turn>, n: nat)
    requires n <= |order| && n <= |turns| && (nd.task.Scanning? || nd.task.Idle?)
    ensures var kept, sent := TurnsUpTo(nd, self, order, turns, n).store, SentUpTo(nd, self, order, turns, n);
            kept.Keys !! sent.Keys && nd.store == kept + sent
  {
    if n > 0 {
      var p, p' := TurnsUpTo(nd, self, order, turns, n - 1), TurnsUpTo(nd, self, order, turns, n);
      LoopConserves(nd, self, order, turns, n - 1);
      assert p'.store == p.store || p'.store == p.store - {order[n - 1]};
    }
  }

  /** Whatever is sent belongs to another node in the sender's view, and remote nodes accept it. */
  lemma {:induction false} LoopSendsForeignKeys(nd: Node, self: string, order: seq<string>, turns: seq<Turn>, n: nat)
    requires n <= |order| && n <= |turns| && (nd.task.Scanning? || nd.task.Idle?)
    ensures forall k :: k in SentUpTo(nd, self, order, turns, n) ==>
              Foreign(nd, self, k, SentUpTo(nd, self, order, turns, n)[k])
  {
    if n > 0 {
      LoopSendsForeignKeys(nd, self, order, turns, n - 1);
      var p := TurnsUpTo(nd, self, order, turns, n - 1);
      if p.task.Scanning? {
        TurnSendsForeignKey(p, self, order[n - 1], turns[n - 1]);
      }
    }
  }

  predicate Foreign(nd: Node, self: string, k: string, cell: Cell) {
    var owner := Owner(nd.view.ring, cell.hash);
    owner != self && owner in nd.pool && Accepts(KeyValuePair(k, cell.hash, cell.value))
  }

  lemma TurnSendsForeignKey(nd: Node, self: string, key: string, turn: Turn)
    requires nd.task.Scanning?
    ensures key in nd.store && key !in OneTurn(nd, self, key, turn).store ==> Foreign(nd, self, key, nd.store[key])
  {
  }

  predicate Own(nd: Node, self: string, cell: Cell) {
    Owner(nd.view.ring, cell.hash) == self
  }

  /** The keys that are the node's own. */
  function OwnKeys(nd: Node, self: string): map<string, Cell> {
    map k | k in nd.store && Own(nd, self, nd.store[k]) :: nd.store[k]
  }

  /** The node can hand over all that is not its own. */
  ghost predicate Deliverable(nd: Node, self: string) {
    forall k :: k in nd.store ==> Own(nd, self, nd.store[k]) || Foreign(nd, self, k, nd.store[k])
  }

  lemma TurnSendsAway(nd: Node, self: string, key: string)
    requires nd.task.Scanning?
    requires key in nd.store ==> Own(nd, self, nd.store[key]) || Foreign(nd, self, key, nd.store[key])
    ensures var nd' := OneTurn(nd, self, key, Turn(true, true));
            && nd'.task.Scanning?
            && nd'.store == if key in nd.store && !Own(nd, self, nd.store[key]) then nd.store - {key} else nd.store
  {
  }

  /** Without failures, exactly the foreign keys among those visited are gone. */
  lemma {:induction false} LoopSendsAllForeignKeys(nd: Node, self: string, order: seq<string>, turns: seq<Turn>, n: nat)
    requires n <= |order| && n <= |turns| && nd.task.Scanning?
    requires forall k :: k in nd.store && k in order[..n] ==>
               Own(nd, self, nd.store[k]) || Foreign(nd, self, k, nd.store[k])
    requires forall i :: 0 <= i < n ==> turns[i] == Turn(true, true)
    ensures TurnsUpTo(nd, self, order, turns, n).task.Scanning?
    ensures TurnsUpTo(nd, self, order, turns, n).store ==
            map k | k in nd.store && (k !in order[..n] || Own(nd, self, nd.store[k])) :: nd.store[k]
  {
    if n > 0 {
      assert order[..n] == order[..n - 1] + [order[n - 1]];
      LoopSendsAllForeignKeys(nd, self, order, turns, n - 1);
      TurnSendsAway(TurnsUpTo(nd, self, order, turns, n - 1), self, order[n - 1]);
    }
  }

  lemma LoopLeavesOwnKeys(nd: Node, self: string, order: seq<string>, turns: seq<Turn>)
    requires |turns| == |order| && nd.task.Scanning? && Deliverable(nd, self)
    requires (forall i :: 0 <= i < |turns| ==> turns[i] == Turn(true, true)) && Elements(order) == nd.store.Keys
    ensures Loop(nd, self, order, turns).store == OwnKeys(nd, self)
  {
    LoopSendsAllForeignKeys(nd, self, order, turns, |order|);
    assert order[..|order|] == order;
    assert forall k :: k in nd.store ==> k in Elements(order);
  }

  /** However the turns go, a key that cannot be delivered stays. */
  lemma UndeliverableStays(nd: Node, self: string, order: seq<string>, turns: seq<Turn>, k: string)
    requires |turns| == |order| && nd.task.Scanning?
    requires k in nd.store && !Foreign(nd, self, k, nd.store[k])
    ensures k in Loop(nd, self, order, turns).store
  {
    LoopConserves(nd, self, order, turns, |order|);
    LoopSendsForeignKeys(nd, self, order, turns, |order|);
  }

  /** Without failures, the loop over all keys leaves exactly those the node
      owns, in whatever order it visits them, if and only if all others can be delivered. */
  lemma LoopLeavesOwnKeysIff(nd: Node, self: string, order: seq<string>, turns: seq<Turn>)
    requires |turns| == |order| && nd.task.Scanning?
    requires (forall i :: 0 <= i < |turns| ==> turns[i] == Turn(true, true)) && Elements(order) == nd.store.Keys
    ensures Loop(nd, self, order, turns).store == OwnKeys(nd, self) <==> Deliverable(nd, self)
  {
    if Deliverable(nd, self) {
      LoopLeavesOwnKeys(nd, self, order, turns);
    } else {
      var k :| k in nd.store && !Own(nd, self, nd.store[k]) && !Foreign(nd, self, k, nd.store[k]);
      UndeliverableStays(nd, self, order, turns, k);
    }
  }

  /** Nothing but the foreign keys visited before the first that cannot be
      delivered is gone: met first, one such key strands all the others. */
  lemma LoopStopsAtUndeliverable(nd: Node, self: string, order: seq<string>, turns: seq<Turn>, i: nat)
    requires |turns| == |order| && nd.task.Scanning? && i < |order|
    requires forall j :: 0 <= j < i ==> turns[j] == Turn(true, true)
    requires forall k :: k in nd.store && k in order[..i] ==>
               Own(nd, self, nd.store[k]) || Foreign(nd, self, k, nd.store[k])
    requires var k := order[i]; k in nd.store && !Own(nd, self, nd.store[k]) && !Foreign(nd, self, k, nd.store[k])
    ensures Loop(nd, self, order, turns).store ==
            map k | k in nd.store && (k !in order[..i] || Own(nd, self, nd.store[k])) :: nd.store[k]
  {
    LoopSendsAllForeignKeys(nd, self, order, turns, i);
    assert order[i] !in order[..i];
    StopsThere(nd, self, order, turns, i + 1, |order|);
  }

  /** A loop that has stopped does nothing more. */
  lemma {:induction false} StopsThere(nd: Node, self: string, order: seq<string>, turns: seq<Turn>, i: nat, n: nat)
    requires i <= n <= |order| && n <= |turns| && (nd.task.Scanning? || nd.task.Idle?)
    requires TurnsUpTo(nd, self, order, turns, i).task.Idle?
    ensures TurnsUpTo(nd, self, order, turns, n) == TurnsUpTo(nd, self, order, turns, i)
  {
    if i < n {
      StopsThere(nd, self, order, turns, i, n - 1);
    }
  }

  // ----- the first failure ends the loop

  /** The key is another node's. */
  predicate Asked(nd: Node, self: string, key: string) {
    key in nd.store && !Own(nd, self, nd.store[key])
  }

  /** The turn cannot hand the key over: its owner is not in the pool, or does not
      accept it, or cannot be dialled, or does not answer. */
  predicate Fails(nd: Node, self: string, key: string, turn: Turn) {
    Asked(nd, self, key) && !(Foreign(nd, self, key, nd.store[key]) && turn.dials && turn.answers)
  }

  /** The first failing turn from place `i` on, or the number of turns. */
  function FirstFailure(nd: Node, self: string, order: seq<string>, turns: seq<Turn>, i: nat): (f: nat)
    requires i <= |order| == |turns|
    ensures i <= f <= |order| && (f < |order| ==> Fails(nd, self, order[f], turns[f]))
    ensures forall j :: i <= j < f ==> !Fails(nd, self, order[j], turns[j])
    decreases |order| - i
  {
    if i == |order| || Fails(nd, self, order[i], turns[i]) then i else FirstFailure(nd, self, order, turns, i + 1)
  }

  /** All but the foreign keys among the first `f`. */
  function LeftAfter(nd: Node, self: string, order: seq<string>, f: nat): map<string, Cell>
    requires f <= |order|
  {
    map k | k in nd.store && (k !in order[..f] || Own(nd, self, nd.store[k])) :: nd.store[k]
  }

  /** A turn over a key that is as it was. */
  lemma TurnGoesOn(nd: Node, p: Node, self: string, key: string, turn: Turn)
    requires p.task.Scanning? && p.view == nd.view && p.pool == nd.pool && !Fails(nd, self, key, turn)
    requires (key in p.store <==> key in nd.store) && (key in p.store ==> p.store[key] == nd.store[key])
    ensures var p' := OneTurn(p, self, key, turn);
            p'.task.Scanning? && p'.store == if Asked(nd, self, key) then p.store - {key} else p.store
  {
  }

  lemma TurnFails(nd: Node, p: Node, self: string, key: string, turn: Turn)
    requires p.task.Scanning? && p.view == nd.view && p.pool == nd.pool && Fails(nd, self, key, turn)
    requires key in p.store && p.store[key] == nd.store[key]
    ensures OneTurn(p, self, key, turn) == p.(task := Idle)
  {
  }

  lemma NotVisitedYet(order: seq<string>, n: nat)
    requires NoDuplicates(order) && n < |order|
    ensures order[n] !in order[..n] && order[..n + 1] == order[..n] + [order[n]]
  {
  }

  /** Up to there, the loop goes on, and hands over what is not the node's own. */
  lemma {:induction false} TurnsBeforeFailure(nd: Node, self: string, order: seq<string>, turns: seq<Turn>, n: nat)
    requires n <= |order| == |turns| && nd.task.Scanning? && NoDuplicates(order)
    requires forall j :: 0 <= j < n ==> !Fails(nd, self, order[j], turns[j])
    ensures TurnsUpTo(nd, self, order, turns, n).task.Scanning?
    ensures TurnsUpTo(nd, self, order, turns, n).store == LeftAfter(nd, self, order, n)
  {
    if n > 0 {
      TurnsBeforeFailure(nd, self, order, turns, n - 1);
      NotVisitedYet(order, n - 1);
      TurnGoesOn(nd, TurnsUpTo(nd, self, order, turns, n - 1), self, order[n - 1], turns[n - 1]);
    }
  }

  /** For every order and every behaviour of the network: what is left is exactly
      all but the foreign keys visited before the first turn that fails, whichever
      way it fails. Nothing is visited behind it. */
  lemma LoopEndsAtFirstFailure(nd: Node, self: string, order: seq<string>, turns: seq<Turn>)
    requires |turns| == |order| && nd.task.Scanning? && NoDuplicates(order)
    ensures Loop(nd, self, order, turns) ==
            nd.(store := LeftAfter(nd, self, order, FirstFailure(nd, self, order, turns, 0)), task := Idle)
  {
    var f := FirstFailure(nd, self, order, turns, 0);
    TurnsBeforeFailure(nd, self, order, turns, f);
    if f < |order| {
      NotVisitedYet(order, f);
      TurnFails(nd, TurnsUpTo(nd, self, order, turns, f), self, order[f], turns[f]);
      StopsThere(nd, self, order, turns, f + 1, |order|);
    }
  }

  // ----- what becomes of the turns, given the connections there are

  type Conns = map<string, GrpcPool.PoolEntry>

  /** The turn asks the pool for a connection. */
  predicate Asks(nd: Node, self: string, key: string) {
    nd.task.Scanning? && key in nd.store && Owner(nd.view.ring, nd.store[key].hash) != self
  }

  /** `turn` says how dialling would go now; a connection dialled before decides instead. */
  function MetTurn(conns: Conns, nd: Node, self: string, key: string, turn: Turn): Turn {
    if Asks(nd, self, key) then
      var target := Owner(nd.view.ring, nd.store[key].hash);
      Turn(target in conns && GrpcPool.Use(conns[target], turn.dials).connected, turn.answers)
    else turn
  }

  /** The connections after the turn. */
  function Dialled(conns: Conns, nd: Node, self: string, key: string, turn: Turn): (conns': Conns)
    ensures conns'.Keys == conns.Keys
  {
    if Asks(nd, self, key) && Owner(nd.view.ring, nd.store[key].hash) in conns then
      var target := Owner(nd.view.ring, nd.store[key].hash);
      conns[target := GrpcPool.Use(conns[target], turn.dials)]
    else conns
  }

  /** What the first `n` turns came to, and the connections after them. */
  function MetUpTo(conns: Conns, nd: Node, self: string, order: seq<string>, net: seq<Turn>, n: nat)
    : (r: (seq<Turn>, Conns))
    requires n <= |order| && n <= |net| && (nd.task.Scanning? || nd.task.Idle?)
    ensures |r.0| == n && r.1.Keys == conns.Keys
  {
    if n == 0 then ([], conns)
    else
      var (met, cs) := MetUpTo(conns, nd, self, order, net, n - 1);
      var p := TurnsUpTo(nd, self, order, met, n - 1);
      (met + [MetTurn(cs, p, self, order[n - 1], net[n - 1])], Dialled(cs, p, self, order[n - 1], net[n - 1]))
  }

  /** The node after the first `n` turns. */
  function AfterTurns(conns: Conns, nd: Node, self: string, order: seq<string>, net: seq<Turn>, n: nat): (nd': Node)
    requires n <= |order| && n <= |net| && (nd.task.Scanning? || nd.task.Idle?)
    ensures nd'.task.Scanning? || nd'.task.Idle?
  {
    TurnsUpTo(nd, self, order, MetUpTo(conns, nd, self, order, net, n).0, n)
  }

  lemma NextTurn(conns: Conns, nd: Node, self: string, order: seq<string>, net: seq<Turn>, n: nat)
    requires n < |order| && n < |net| && (nd.task.Scanning? || nd.task.Idle?)
    ensures var p, (met, cs) := AfterTurns(conns, nd, self, order, net, n), MetUpTo(conns, nd, self, order, net, n);
            && AfterTurns(conns, nd, self, order, net, n + 1) ==
               (if p.task.Idle? then p else OneTurn(p, self, order[n], MetTurn(cs, p, self, order[n], net[n])))
            && MetUpTo(conns, nd, self, order, net, n + 1).1 == Dialled(cs, p, self, order[n], net[n])
  {
    TurnsPrefix(nd, self, order, MetUpTo(conns, nd, self, order, net, n + 1).0,
      MetUpTo(conns, nd, self, order, net, n).0, n);
  }

  /** The loop does nothing more once it has stopped. */
  lemma {:induction false} StaysStopped(
      conns: Conns, nd: Node, self: string, order: seq<string>, net: seq<Turn>, i: nat, n: nat)
    requires i <= n <= |order| && n <= |net| && (nd.task.Scanning? || nd.task.Idle?)
    requires AfterTurns(conns, nd, self, order, net, i).task.Idle?
    ensures AfterTurns(conns, nd, self, order, net, n) == AfterTurns(conns, nd, self, order, net, i)
    ensures MetUpTo(conns, nd, self, order, net, n).1 == MetUpTo(conns, nd, self, order, net, i).1
  {
    if i < n {
      StaysStopped(conns, nd, self, order, net, i, n - 1);
      NextTurn(conns, nd, self, order, net, n - 1);
    }
  }

  /** No connection was dialled in vain. */
  ghost predicate NoneBroken(conns: Conns) {
    forall n :: n in conns && conns[n].dialled ==> conns[n].connected
  }

  /** The owner of whatever is still stored has a connection. */
  ghost predicate Connected(conns: Conns, nd: Node, self: string) {
    forall k :: k in nd.store ==>
      Owner(nd.view.ring, nd.store[k].hash) == self || Owner(nd.view.ring, nd.store[k].hash) in conns
  }

  lemma TurnGoesWell(conns: Conns, nd: Node, self: string, key: string, turn: Turn)
    requires NoneBroken(conns) && Connected(conns, nd, self) && turn == Turn(true, true)
    ensures MetTurn(conns, nd, self, key, turn) == turn && NoneBroken(Dialled(conns, nd, self, key, turn))
  {
  }

  lemma StaysConnected(conns: Conns, nd: Node, self: string, order: seq<string>, net: seq<Turn>, n: nat)
    requires n <= |order| && n <= |net| && nd.task.Scanning? && Connected(conns, nd, self)
    ensures Connected(MetUpTo(conns, nd, self, order, net, n).1, AfterTurns(conns, nd, self, order, net, n), self)
  {
    LoopConserves(nd, self, order, MetUpTo(conns, nd, self, order, net, n).0, n);
  }

  /** If the network carries everything, every turn comes to what it should. */
  lemma {:induction false} AllTurnsWell(
      conns: Conns, nd: Node, self: string, order: seq<string>, net: seq<Turn>, n: nat)
    requires n <= |order| && n <= |net| && nd.task.Scanning? && NoneBroken(conns) && Connected(conns, nd, self)
    requires forall i :: 0 <= i < n ==> net[i] == Turn(true, true)
    ensures NoneBroken(MetUpTo(conns, nd, self, order, net, n).1)
    ensures forall i :: 0 <= i < n ==> MetUpTo(conns, nd, self, order, net, n).0[i] == Turn(true, true)
  {
    if n > 0 {
      AllTurnsWell(conns, nd, self, order, net, n - 1);
      StaysConnected(conns, nd, self, order, net, n - 1);
      TurnGoesWell(MetUpTo(conns, nd, self, order, net, n - 1).1, AfterTurns(conns, nd, self, order, net, n - 1),
        self, order[n - 1], net[n - 1]);
    }
  }

  lemma NoneBrokenWith(conns: Conns, name: string, addr: string)
    requires NoneBroken(conns)
    ensures NoneBroken(GrpcPool.WithEntry(conns, name, addr))
  {
  }

  /** So a join of a node with an address, if the network carries everything and no
      connection there was before is broken, leaves exactly the node's own keys if
      and only if all others can be delivered: their owners are in the pool, and
      accept them. */
  lemma JoinHandsOverAllIff(
      before: Conns, name: string, addr: string, nd: Node, self: string, order: seq<string>, net: seq<Turn>)
    requires |net| == |order| && nd.task.Scanning? && Elements(order) == nd.store.Keys
    requires NoneBroken(before) && name != "" && addr != "" && nd.pool.Keys == before.Keys + {name}
    requires forall i :: 0 <= i < |net| ==> net[i] == Turn(true, true)
    ensures var conns := GrpcPool.WithEntry(before, name, addr);
            Loop(nd, self, order, MetUpTo(conns, nd, self, order, net, |order|).0).store == OwnKeys(nd, self)
            <==> Deliverable(nd, self)
  {
    var conns := GrpcPool.WithEntry(before, name, addr);
    var met := MetUpTo(conns, nd, self, order, net, |order|).0;
    NoneBrokenWith(before, name, addr);
    if Deliverable(nd, self) {
      AllTurnsWell(conns, nd, self, order, net, |order|);
      LoopLeavesOwnKeys(nd, self, order, met);
    } else {
      var k :| k in nd.store && !Own(nd, self, nd.store[k]) && !Foreign(nd, self, k, nd.store[k]);
      UndeliverableStays(nd, self, order, met, k);
    }
  }

  // ----- the first failure, given the connections there are

  /** A foreign key of this owner is among the first `i`. */
  predicate AskedBefore(nd: Node, self: string, order: seq<string>, i: nat, owner: string)
    requires i <= |order|
  {
    exists j :: 0 <= j < i && Asked(nd, self, order[j]) && Owner(nd.view.ring, nd.store[order[j]].hash) == owner
  }

  /** The owner of the key at place `i` can be called: the one dialling of its
      entry, long ago, in an earlier turn or in this one, succeeds. */
  predicate Connects(conns: Conns, nd: Node, self: string, order: seq<string>, net: seq<Turn>, i: nat)
    requires i < |order| && i < |net|
  {
    Asked(nd, self, order[i]) ==>
      var owner := Owner(nd.view.ring, nd.store[order[i]].hash);
      && owner in conns
      && if conns[owner].dialled then conns[owner].connected
         else AskedBefore(nd, self, order, i, owner) || net[i].dials
  }

  /** What is to be expected of the turns, as long as none fails. */
  function Expected(conns: Conns, nd: Node, self: string, order: seq<string>, net: seq<Turn>): (turns: seq<Turn>)
    requires |net| == |order|
    ensures |turns| == |order|
    ensures forall i :: 0 <= i < |order| ==> turns[i] == Turn(Connects(conns, nd, self, order, net, i), net[i].answers)
  {
    seq(|order|, i requires 0 <= i < |order| => Turn(Connects(conns, nd, self, order, net, i), net[i].answers))
  }

  /** The connections once the first `n` turns went well. */
  ghost predicate DialledBefore(conns: Conns, nd: Node, self: string, order: seq<string>, n: nat, conns': Conns)
    requires n <= |order|
  {
    && conns'.Keys == conns.Keys
    && forall owner :: owner in conns ==>
         conns'[owner] == if !conns[owner].dialled && AskedBefore(nd, self, order, n, owner)
                          then GrpcPool.PoolEntry(conns[owner].addr, true, true) else conns[owner]
  }

  /** The node in the loop, after `n` turns that went well. */
  ghost predicate StillInLoop(nd: Node, self: string, order: seq<string>, n: nat, p: Node)
    requires n <= |order|
  {
    p.task.Scanning? && p.view == nd.view && p.pool == nd.pool && p.store == LeftAfter(nd, self, order, n)
  }

  /** The next turn comes to what is to be expected. */
  lemma MeetsExpected(
      conns: Conns, nd: Node, self: string, order: seq<string>, net: seq<Turn>, n: nat, cs: Conns, p: Node)
    requires n < |order| == |net| && NoDuplicates(order) && DialledBefore(conns, nd, self, order, n, cs)
    requires StillInLoop(nd, self, order, n, p)
    requires Asked(nd, self, order[n])
    ensures MetTurn(cs, p, self, order[n], net[n]) == Expected(conns, nd, self, order, net)[n]
  {
    NotVisitedYet(order, n);
  }

  lemma StaysDialled(
      conns: Conns, nd: Node, self: string, order: seq<string>, net: seq<Turn>, n: nat, cs: Conns, p: Node)
    requires n < |order| == |net| && NoDuplicates(order) && DialledBefore(conns, nd, self, order, n, cs)
    requires StillInLoop(nd, self, order, n, p)
    requires !Fails(nd, self, order[n], Expected(conns, nd, self, order, net)[n])
    ensures DialledBefore(conns, nd, self, order, n + 1, Dialled(cs, p, self, order[n], net[n]))
  {
    NotVisitedYet(order, n);
    forall owner
      ensures AskedBefore(nd, self, order, n + 1, owner) <==>
              AskedBefore(nd, self, order, n, owner)
              || (Asked(nd, self, order[n]) && Owner(nd.view.ring, nd.store[order[n]].hash) == owner)
    {
    }
  }

  lemma NextGoesWell(
      conns: Conns, nd: Node, self: string, order: seq<string>, net: seq<Turn>, n: nat, cs: Conns, p: Node)
    requires n < |order| == |net| && NoDuplicates(order) && DialledBefore(conns, nd, self, order, n, cs)
    requires StillInLoop(nd, self, order, n, p)
    requires !Fails(nd, self, order[n], Expected(conns, nd, self, order, net)[n])
    ensures StillInLoop(nd, self, order, n + 1, OneTurn(p, self, order[n], MetTurn(cs, p, self, order[n], net[n])))
  {
    NotVisitedYet(order, n);
    if Asked(nd, self, order[n]) {
      MeetsExpected(conns, nd, self, order, net, n, cs, p);
    }
    TurnGoesOn(nd, p, self, order[n], MetTurn(cs, p, self, order[n], net[n]));
  }

  /** One turn on. */
  lemma TurnFrom(
      conns: Conns, nd: Node, self: string, order: seq<string>, net: seq<Turn>, n: nat, p: Node, cs: Conns)
    returns (p': Node, cs': Conns)
    requires n < |order| == |net| && nd.task.Scanning? && p.task.Scanning?
    requires p == AfterTurns(conns, nd, self, order, net, n) && cs == MetUpTo(conns, nd, self, order, net, n).1
    ensures p' == AfterTurns(conns, nd, self, order, net, n + 1)
    ensures cs' == MetUpTo(conns, nd, self, order, net, n + 1).1
    ensures p' == OneTurn(p, self, order[n], MetTurn(cs, p, self, order[n], net[n]))
    ensures cs' == Dialled(cs, p, self, order[n], net[n])
  {
    NextTurn(conns, nd, self, order, net, n);
    p', cs' := AfterTurns(conns, nd, self, order, net, n + 1), MetUpTo(conns, nd, self, order, net, n + 1).1;
  }

  /** The first `n` turns went well, and that is the node and those are the connections. */
  ghost predicate GoneWell(
      conns: Conns, nd: Node, self: string, order: seq<string>, n: nat, p: Node, cs: Conns)
    requires n <= |order|
  {
    StillInLoop(nd, self, order, n, p) && DialledBefore(conns, nd, self, order, n, cs)
  }

  lemma BeginsWell(conns: Conns, nd: Node, self: string, order: seq<string>, net: seq<Turn>)
    returns (p: Node, cs: Conns)
    requires nd.task.Scanning? && |order| == |net|
    ensures p == AfterTurns(conns, nd, self, order, net, 0) && cs == MetUpTo(conns, nd, self, order, net, 0).1
    ensures GoneWell(conns, nd, self, order, 0, p, cs)
  {
    p, cs := nd, conns;
  }

  lemma GoesOnWell(
      conns: Conns, nd: Node, self: string, order: seq<string>, net: seq<Turn>, n: nat, p: Node, cs: Conns)
    requires n < |order| == |net| && NoDuplicates(order) && GoneWell(conns, nd, self, order, n, p, cs)
    requires !Fails(nd, self, order[n], Expected(conns, nd, self, order, net)[n])
    ensures GoneWell(conns, nd, self, order, n + 1, OneTurn(p, self, order[n], MetTurn(cs, p, self, order[n], net[n])),
              Dialled(cs, p, self, order[n], net[n]))
  {
    NextGoesWell(conns, nd, self, order, net, n, cs, p);
    StaysDialled(conns, nd, self, order, net, n, cs, p);
  }

  /** None of the first `n` turns is expected to fail. */
  ghost predicate NoneFails(nd: Node, self: string, order: seq<string>, turns: seq<Turn>, n: nat)
    requires n <= |order| == |turns|
  {
    forall j :: 0 <= j < n ==> !Fails(nd, self, order[j], turns[j])
  }

  lemma WellTurn(
      conns: Conns, nd: Node, self: string, order: seq<string>, net: seq<Turn>, n: nat, before: Node, dialled: Conns)
    returns (p: Node, cs: Conns)
    requires n < |order| == |net| && nd.task.Scanning? && NoDuplicates(order)
    requires NoneFails(nd, self, order, Expected(conns, nd, self, order, net), n + 1)
    requires GoneWell(conns, nd, self, order, n, before, dialled)
    requires before == AfterTurns(conns, nd, self, order, net, n)
    requires dialled == MetUpTo(conns, nd, self, order, net, n).1
    ensures p == AfterTurns(conns, nd, self, order, net, n + 1)
    ensures cs == MetUpTo(conns, nd, self, order, net, n + 1).1
    ensures GoneWell(conns, nd, self, order, n + 1, p, cs)
  {
    p, cs := TurnFrom(conns, nd, self, order, net, n, before, dialled);
    GoesOnWell(conns, nd, self, order, net, n, before, dialled);
  }

  lemma FewerFail(nd: Node, self: string, order: seq<string>, turns: seq<Turn>, n: nat)
    requires 0 < n <= |order| == |turns| && NoneFails(nd, self, order, turns, n)
    ensures NoneFails(nd, self, order, turns, n - 1)
  {
  }

  lemma {:induction false} MetBeforeFailure(
      conns: Conns, nd: Node, self: string, order: seq<string>, net: seq<Turn>, n: nat) returns (p: Node, cs: Conns)
    requires n <= |order| == |net| && nd.task.Scanning? && NoDuplicates(order)
    requires NoneFails(nd, self, order, Expected(conns, nd, self, order, net), n)
    ensures p == AfterTurns(conns, nd, self, order, net, n) && cs == MetUpTo(conns, nd, self, order, net, n).1
    ensures GoneWell(conns, nd, self, order, n, p, cs)
    decreases n
  {
    if n == 0 {
      p, cs := BeginsWell(conns, nd, self, order, net);
    } else {
      FewerFail(nd, self, order, Expected(conns, nd, self, order, net), n);
      p, cs := MetBeforeFailure(conns, nd, self, order, net, n - 1);
      p, cs := WellTurn(conns, nd, self, order, net, n - 1, p, cs);
    }
  }

  /** At the first failing turn, the loop ends. */
  lemma MetFailure(conns: Conns, nd: Node, self: string, order: seq<string>, net: seq<Turn>, f: nat)
    requires f < |order| == |net| && nd.task.Scanning? && NoDuplicates(order)
    requires NoneFails(nd, self, order, Expected(conns, nd, self, order, net), f)
    requires Fails(nd, self, order[f], Expected(conns, nd, self, order, net)[f])
    ensures var p, cs := AfterTurns(conns, nd, self, order, net, f), MetUpTo(conns, nd, self, order, net, f).1;
            && AfterTurns(conns, nd, self, order, net, f + 1) ==
               nd.(store := LeftAfter(nd, self, order, f), task := Idle)
            && MetUpTo(conns, nd, self, order, net, f + 1).1 == Dialled(cs, p, self, order[f], net[f])
  {
    var p, cs := MetBeforeFailure(conns, nd, self, order, net, f);
    var p', cs' := TurnFrom(conns, nd, self, order, net, f, p, cs);
    NotVisitedYet(order, f);
    MeetsExpected(conns, nd, self, order, net, f, cs, p);
    TurnFails(nd, p, self, order[f], MetTurn(cs, p, self, order[f], net[f]));
  }

  /** The connections in the end: each entry that a turn asked for first has been
      dialled, with success unless that was the failing turn, and no other has changed. */
  ghost predicate DialledInTheEnd(
      conns: Conns, nd: Node, self: string, order: seq<string>, net: seq<Turn>, f: nat, conns': Conns)
    requires f <= |order| == |net|
  {
    && conns'.Keys == conns.Keys
    && forall owner :: owner in conns ==>
         conns'[owner] ==
         if !conns[owner].dialled && AskedBefore(nd, self, order, if f < |order| then f + 1 else f, owner)
         then GrpcPool.PoolEntry(conns[owner].addr, true,
                AskedBefore(nd, self, order, f, owner) || (f < |order| && net[f].dials))
         else conns[owner]
  }

  lemma LastDialled(
      conns: Conns, nd: Node, self: string, order: seq<string>, net: seq<Turn>, f: nat, cs: Conns, p: Node)
    requires f < |order| == |net| && NoDuplicates(order) && DialledBefore(conns, nd, self, order, f, cs)
    requires StillInLoop(nd, self, order, f, p)
    ensures DialledInTheEnd(conns, nd, self, order, net, f, Dialled(cs, p, self, order[f], net[f]))
  {
    NotVisitedYet(order, f);
    forall owner
      ensures AskedBefore(nd, self, order, f + 1, owner) <==>
              AskedBefore(nd, self, order, f, owner)
              || (Asked(nd, self, order[f]) && Owner(nd.view.ring, nd.store[order[f]].hash) == owner)
    {
    }
  }

  lemma NetworkEndsAt(conns: Conns, nd: Node, self: string, order: seq<string>, net: seq<Turn>, f: nat)
    returns (p: Node, cs: Conns)
    requires f <= |order| == |net| && nd.task.Scanning? && NoDuplicates(order)
    requires NoneFails(nd, self, order, Expected(conns, nd, self, order, net), f)
    requires f < |order| ==> Fails(nd, self, order[f], Expected(conns, nd, self, order, net)[f])
    ensures p == AfterTurns(conns, nd, self, order, net, |order|)
    ensures cs == MetUpTo(conns, nd, self, order, net, |order|).1
    ensures p.(task := Idle) == nd.(store := LeftAfter(nd, self, order, f), task := Idle)
    ensures DialledInTheEnd(conns, nd, self, order, net, f, cs)
  {
    p, cs := MetBeforeFailure(conns, nd, self, order, net, f);
    if f < |order| {
      LastDialled(conns, nd, self, order, net, f, cs, p);
      MetFailure(conns, nd, self, order, net, f);
      StaysStopped(conns, nd, self, order, net, f + 1, |order|);
      cs := Dialled(cs, p, self, order[f], net[f]);
      p := AfterTurns(conns, nd, self, order, net, |order|);
    }
  }

  /** The same with connections as they are dialled on the way: for every order and
      every behaviour of the network, all but the foreign keys visited before the
      first turn that fails are left, and the connections are known. */
  lemma NetworkLoopEnds(conns: Conns, nd: Node, self: string, order: seq<string>, net: seq<Turn>)
    requires |net| == |order| && nd.task.Scanning? && NoDuplicates(order)
    ensures var f := FirstFailure(nd, self, order, Expected(conns, nd, self, order, net), 0);
            var (met, conns') := MetUpTo(conns, nd, self, order, net, |order|);
            Loop(nd, self, order, met) == nd.(store := LeftAfter(nd, self, order, f), task := Idle)
            && DialledInTheEnd(conns, nd, self, order, net, f, conns')
  {
    var p, cs := NetworkEndsAt(conns, nd, self, order, net,
      FirstFailure(nd, self, order, Expected(conns, nd, self, order, net), 0));
  }

  // ----- a whole join

  /** What a node that `name` joins comes to, put without the loop: the ring has the
      new node, and so have the connections if it came with an address; without
      metadata that parses, that is all; with it, everything is gone but the node's
      own keys and those the loop did not get to before its first failure. */
  ghost predicate JoinOutcome(
      c: Config, before: Node, conns: Conns, self: string, name: string, meta: Meta, order: seq<string>,
      net: seq<Turn>, after: Node, conns': Conns)
    requires |net| == |order|
  {
    var addr := match meta case Parsed(addr) => addr case Unparsable(fallback) => fallback;
    var conns1 := if name == "" || addr == "" then conns else conns[name := GrpcPool.PoolEntry(addr, false, false)];
    var nd := Node(Add(c, before.view, name), map n | n in conns1 :: conns1[n].addr, before.store,
      Scanning(before.store.Keys));
    && after.view == nd.view && after.task.Idle?
    && match meta
       case Unparsable(_) => after.store == before.store && conns' == conns1
       case Parsed(_) =>
         var f := FirstFailure(nd, self, order, Expected(conns1, nd, self, order, net), 0);
         after.store == LeftAfter(nd, self, order, f) && DialledInTheEnd(conns1, nd, self, order, net, f, conns')
  }

  lemma UnparsedJoin(
      c: Config, before: Node, conns: Conns, self: string, name: string, addr: string, order: seq<string>,
      net: seq<Turn>)
    requires |net| == |order|
    ensures var conns1, nd := GrpcPool.WithEntry(conns, name, addr), BeginJoin(c, before, name, Unparsable(addr));
            var (met, conns') := MetUpTo(conns1, nd, self, order, net, |order|);
            JoinOutcome(c, before, conns, self, name, Unparsable(addr), order, net, Loop(nd, self, order, met), conns')
  {
    var conns1, nd := GrpcPool.WithEntry(conns, name, addr), BeginJoin(c, before, name, Unparsable(addr));
    StaysStopped(conns1, nd, self, order, net, 0, |order|);
  }

  lemma ParsedJoin(
      c: Config, before: Node, conns: Conns, self: string, name: string, addr: string, order: seq<string>,
      net: seq<Turn>)
    requires |net| == |order| && NoDuplicates(order) && before.pool == map n | n in conns :: conns[n].addr
    ensures var conns1, nd := GrpcPool.WithEntry(conns, name, addr), BeginJoin(c, before, name, Parsed(addr));
            var (met, conns') := MetUpTo(conns1, nd, self, order, net, |order|);
            JoinOutcome(c, before, conns, self, name, Parsed(addr), order, net, Loop(nd, self, order, met), conns')
  {
    var conns1, nd := GrpcPool.WithEntry(conns, name, addr), BeginJoin(c, before, name, Parsed(addr));
    assert nd.pool == map n | n in conns1 :: conns1[n].addr;
    NetworkLoopEnds(conns1, nd, self, order, net);
  }
}
