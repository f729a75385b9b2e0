/** Exactly when undisturbed joins must come to an end: a key to which two nodes
    are equally near can go back and forth between them for as long as one likes. */
module Livelock {
  import opened Values
  import opened HashRing
  import opened Protocol
  import opened NoLoss
  import opened Joins
  import opened JoinProgress
  import opened JoinBound

  // ----- without ties

  ghost predicate EndsWithin(c: Config, s: Cluster, bound: nat) {
    forall steps :: Legal(c, s, steps) && AllUndisturbed(steps) ==> |steps| <= bound
  }

  /** There is a bound on undisturbed runs from the state. */
  ghost predicate MustEnd(c: Config, s: Cluster) {
    exists bound: nat :: EndsWithin(c, s, bound)
  }

  lemma {:induction false} Listing(names: set<string>) returns (ids: seq<string>)
    ensures NoDuplicates(ids) && Elements(ids) == names
  {
    ids := [];
    if n :| n in names {
      var rest := Listing(names - {n});
      assert n !in Elements(rest);
      ids := rest + [n];
      assert Elements(ids) == Elements(rest) + {n};
    } else {
      assert Elements(ids) == {};
    }
  }

  lemma UntiedEnds(c: Config, names: set<string>, keys: set<string>, s: Cluster)
    requires Underway(c, names, keys, s) && forall k :: k in keys ==> Untied(c, names, k)
    ensures MustEnd(c, s)
  {
    var ks := Listing(keys);
    var ids := Listing(s.Keys);
    forall steps | Legal(c, s, steps) && AllUndisturbed(steps)
      ensures |steps| <= TotalWork(c, ks, s, ids)
    {
      assert forall k :: k in ks ==> k in Elements(ks);
      JoinsEnd(c, names, s, steps, ks, ids);
    }
    assert EndsWithin(c, s, TotalWork(c, ks, s, ids));
  }

  // ----- back and forth

  /** Nodes `a` and `b` know each other, and each takes the other for the owner
      of the key. Node `a` is about to look at it, while `b`, without keys, is
      still in its loop. */
  function Rally(c: Config, names: set<string>, key: string, a: string, b: string): Cluster
    requires a in names && b in names
  {
    Duo(c, names, a, b, Moved(c, key, a, b, 2), Moved(c, key, b, a, 5))
  }

  /** The hand-off from `a` to `b`, whose loop will still see the key. */
  function Stroke(key: string, a: string, b: string): seq<Step> {
    [Visit(a, key, true), Deliver(a, Acked, true), Delete(a)]
  }

  lemma Arrives(c: Config, names: set<string>, key: string, a: string, b: string)
    requires Tied(c, names, key, a, b)
    ensures var y := Moved(c, key, b, a, 5); var s := Duo(c, names, a, b, Moved(c, key, a, b, 3), y);
            && Enabled(s, Deliver(a, Acked, true))
            && Apply(c, s, Deliver(a, Acked, true)) ==
               Duo(c, names, a, b, Moved(c, key, a, b, 4), Moved(c, key, b, a, 2))
  {
    var y, pair := Moved(c, key, b, a, 5), Moved(c, key, a, b, 3).task.pair;
    MoveStep(c, names, key, a, b, 4);
    assert {} + {key} == {key};
    assert Receive(y, pair, true) == Moved(c, key, b, a, 2);
    Effect(c, Duo(c, names, a, b, Moved(c, key, a, b, 3), y), Deliver(a, Acked, true));
  }

  lemma Delivers(c: Config, names: set<string>, key: string, a: string, b: string)
    requires Tied(c, names, key, a, b)
    ensures Leads(c, Rally(c, names, key, a, b), [Visit(a, key, true), Deliver(a, Acked, true)],
              Duo(c, names, a, b, Moved(c, key, a, b, 4), Moved(c, key, b, a, 2)))
  {
    var y := Moved(c, key, b, a, 5);
    MoveInDuo(c, names, key, a, b, 3, y);
    Arrives(c, names, key, a, b);
    TwoSteps(c, Rally(c, names, key, a, b), Visit(a, key, true), Duo(c, names, a, b, Moved(c, key, a, b, 3), y),
      Deliver(a, Acked, true), Duo(c, names, a, b, Moved(c, key, a, b, 4), Moved(c, key, b, a, 2)));
  }

  lemma Deletes(c: Config, names: set<string>, key: string, a: string, b: string)
    requires Tied(c, names, key, a, b)
    ensures Leads(c, Duo(c, names, a, b, Moved(c, key, a, b, 4), Moved(c, key, b, a, 2)), [Delete(a)],
              Rally(c, names, key, b, a))
  {
    var y := Moved(c, key, b, a, 2);
    MoveInDuo(c, names, key, a, b, 5, y);
    DuoSymmetric(c, names, a, b, Moved(c, key, a, b, 5), y);
    OneStep(c, Duo(c, names, a, b, Moved(c, key, a, b, 4), y), Delete(a));
  }

  lemma Exchange(c: Config, names: set<string>, key: string, a: string, b: string)
    requires Tied(c, names, key, a, b)
    ensures Leads(c, Rally(c, names, key, a, b), Stroke(key, a, b), Rally(c, names, key, b, a))
  {
    Delivers(c, names, key, a, b);
    Deletes(c, names, key, a, b);
    LeadsOn(c, Rally(c, names, key, a, b), [Visit(a, key, true), Deliver(a, Acked, true)],
      Duo(c, names, a, b, Moved(c, key, a, b, 4), Moved(c, key, b, a, 2)), [Delete(a)], Rally(c, names, key, b, a));
    assert [Visit(a, key, true), Deliver(a, Acked, true)] + [Delete(a)] == Stroke(key, a, b);
  }

  /** As often as one likes. */
  lemma {:induction false} Exchanges(c: Config, names: set<string>, key: string, a: string, b: string, n: nat)
    returns (steps: seq<Step>, s: Cluster)
    requires Tied(c, names, key, a, b)
    ensures |steps| == 3 * n && Leads(c, Rally(c, names, key, a, b), steps, s)
    decreases n
  {
    if n == 0 {
      steps, s := [], Rally(c, names, key, a, b);
    } else {
      Exchange(c, names, key, a, b);
      steps, s := Exchanges(c, names, key, b, a, n - 1);
      LeadsOn(c, Rally(c, names, key, a, b), Stroke(key, a, b), Rally(c, names, key, b, a), steps, s);
      steps := Stroke(key, a, b) + steps;
    }
  }

  lemma ReachableNext(c: Config, names: set<string>, s: Cluster, step: Step)
    requires Reachable(c, names, s) && Enabled(s, step)
    ensures Reachable(c, names, Apply(c, s, step))
  {
    var steps :| Legal(c, Start(c, names), steps) && s == Run(c, Start(c, names), steps);
    OneStep(c, s, step);
    RunConcat(c, Start(c, names), steps, [step]);
  }

  lemma MoveReachable(c: Config, names: set<string>, key: string, a: string, b: string, i: nat, y: Node)
    requires Tied(c, names, key, a, b) && 0 < i <= 3
    requires Reachable(c, names, Duo(c, names, a, b, Moved(c, key, a, b, i - 1), y))
    ensures Reachable(c, names, Duo(c, names, a, b, Moved(c, key, a, b, i), y))
  {
    MoveInDuo(c, names, key, a, b, i, y);
    ReachableNext(c, names, Duo(c, names, a, b, Moved(c, key, a, b, i - 1), y), Move(key, a, b, i));
  }

  /** A client writes the key at `a`, and each of the two hears of the other. */
  lemma RallyReachable(c: Config, names: set<string>, key: string, a: string, b: string)
    requires Tied(c, names, key, a, b)
    ensures Reachable(c, names, Rally(c, names, key, a, b))
  {
    var y := Moved(c, key, b, a, 0);
    BothBegin(c, names, key, a, b);
    assert Run(c, Start(c, names), []) == Start(c, names);
    MoveReachable(c, names, key, a, b, 1, y);
    MoveReachable(c, names, key, a, b, 2, y);
    HearsWithoutKeys(c, names, key, a, b);
    ReachableNext(c, names, Duo(c, names, a, b, Moved(c, key, a, b, 2), y), Join(b, a, META));
  }

  lemma RallyKeys(c: Config, names: set<string>, key: string, a: string, b: string)
    requires Tied(c, names, key, a, b)
    ensures KeysOf(Rally(c, names, key, a, b)) <= {key}
  {
  }

  lemma HearsWithoutKeys(c: Config, names: set<string>, key: string, a: string, b: string)
    requires Tied(c, names, key, a, b)
    ensures var s := Duo(c, names, a, b, Moved(c, key, a, b, 2), Moved(c, key, b, a, 0));
            Enabled(s, Join(b, a, META)) && Apply(c, s, Join(b, a, META)) == Rally(c, names, key, a, b)
  {
    var x, y := Moved(c, key, a, b, 2), Moved(c, key, b, a, 0);
    var none: map<string, Cell> := map[];
    assert none.Keys == {};
    assert Local(c, y, Join(b, a, META)) == Moved(c, key, b, a, 5);
    DuoSymmetric(c, names, a, b, x, y);
    DuoSymmetric(c, names, a, b, x, Moved(c, key, b, a, 5));
    DuoStep(c, names, b, a, y, Join(b, a, META), x);
  }

  lemma TiedGoesOn(c: Config, names: set<string>, key: string, a: string, b: string)
    requires Tied(c, names, key, a, b)
    ensures !MustEnd(c, Rally(c, names, key, a, b))
  {
    forall bound: nat
      ensures !EndsWithin(c, Rally(c, names, key, a, b), bound)
    {
      var steps, s := Exchanges(c, names, key, a, b, bound + 1);
    }
  }

  // ----- exactly when

  /** Undisturbed joins come to an end, from every reachable state that stores
      no other keys, if and only if no two nodes are equally near to one of the
      keys, or remote nodes refuse that key anyway. */
  lemma JoinsEndIffUntied(c: Config, names: set<string>, keys: set<string>)
    requires "" !in names
    ensures (forall s: Cluster :: Reachable(c, names, s) && KeysOf(s) <= keys ==> MustEnd(c, s))
            <==> forall k :: k in keys ==> Untied(c, names, k)
  {
    if forall k :: k in keys ==> Untied(c, names, k) {
      forall s: Cluster | Reachable(c, names, s) && KeysOf(s) <= keys
        ensures MustEnd(c, s)
      {
        ReachableUnderway(c, names, s);
        UntiedEnds(c, names, KeysOf(s), s);
      }
    } else {
      var k :| k in keys && !Untied(c, names, k);
      var a, b :| a in names && b in names && a != b && Rank(c, a, c.sum64(k)) == Rank(c, b, c.sum64(k));
      RallyReachable(c, names, k, a, b);
      RallyKeys(c, names, k, a, b);
      TiedGoesOn(c, names, k, a, b);
    }
  }
}
