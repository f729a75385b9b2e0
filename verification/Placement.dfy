/** What many joins at the same time come to: exactly when each key ends at its owner. */
module Placement {
  import opened Values
  import opened HashRing
  import opened Grpc
  import opened RingTheory
  import opened Protocol
  import opened Joins
  import opened Misplacement

  ghost predicate AtMostOneRival(c: Config, joiners: set<string>, a: string, k: string) {
    forall i, j :: Rival(c, joiners, a, k, i) && Rival(c, joiners, a, k, j) ==> i == j
  }

  /** There is one place for the key to go: at most one joiner is as near to it
      as its home, and that one is nearer. */
  ghost predicate OneWay(c: Config, joiners: set<string>, a: string, k: string) {
    forall i, j :: Rival(c, joiners, a, k, i) && Rival(c, joiners, a, k, j) ==>
      i == j && Rank(c, i, c.sum64(k)) < Rank(c, a, c.sum64(k))
  }

  // ----- a key that goes to a joiner

  ghost function HomesOf(members: set<string>, s0: Cluster, k: string): set<string> {
    set n | n in members && n in s0 && k in s0[n].store
  }

  /** A holder knows the old members, none of which is nearer. */
  lemma HomeSees(
      c: Config, members: set<string>, joiners: set<string>, a: string, k: string, o: string, n: string, nd: Node)
    requires SettledNode(c, members, n, nd) && n in members && n != "" && k in nd.store && members !! joiners
    requires a in members && forall q :: q in members ==> Rank(c, a, c.sum64(k)) <= Rank(c, q, c.sum64(k))
    requires OneWay(c, joiners, a, k) && Rival(c, joiners, a, k, o)
    ensures Sees(c, members + joiners, n, o, c.sum64(k), nd.view)
  {
    HolderIsNearest(c, members, n, nd, k);
    FindsItself(c, members, n, nd, k, o);
    forall who | who in members + joiners && who !in nd.view.nodes && who != o
      ensures Rank(c, n, c.sum64(k)) < Rank(c, who, c.sum64(k))
    {
      assert who !in Elements(nd.view.nodes);
      assert !Rival(c, joiners, a, k, who);
    }
  }

  lemma RivalSees(
      c: Config, members: set<string>, joiners: set<string>, a: string, k: string, o: string, view: RingState)
    requires a in members && forall q :: q in members ==> Rank(c, a, c.sum64(k)) <= Rank(c, q, c.sum64(k))
    requires OneWay(c, joiners, a, k) && Rival(c, joiners, a, k, o)
    requires WellFormed(c, view) && view.nodes == [o] && c.Count() > 0
    ensures Sees(c, members + joiners, o, o, c.sum64(k), view)
  {
    OwnerKnown(c, view, c.sum64(k));
    forall who | who in members + joiners && who != o
      ensures Rank(c, o, c.sum64(k)) < Rank(c, who, c.sum64(k))
    {
      if who in joiners {
        assert !Rival(c, joiners, a, k, who);
      } else {
        assert Rival(c, joiners, a, k, o) && Rank(c, a, c.sum64(k)) <= Rank(c, who, c.sum64(k));
      }
    }
  }

  lemma JoinerAlone(c: Config, members: set<string>, joiners: set<string>, s0: Cluster, o: string)
    requires Gathering(c, members, joiners, s0) && o in joiners
    ensures WellFormed(c, s0[o].view) && s0[o].view.nodes == [o] && s0[o].store == map[]
  {
    StartNodeInv(c, {o}, o);
  }

  lemma JoinerSeesFirst(
      c: Config, members: set<string>, joiners: set<string>, a: string, k: string, o: string, homes: set<string>,
      n: string, nd: Node)
    requires a in members && forall q :: q in members ==> Rank(c, a, c.sum64(k)) <= Rank(c, q, c.sum64(k))
    requires OneWay(c, joiners, a, k) && Rival(c, joiners, a, k, o) && n !in homes
    requires WellFormed(c, nd.view) && nd.view.nodes == [n] && nd.store == map[] && c.Count() > 0
    ensures SeesWay(c, members + joiners, homes, o, k, n, nd)
  {
    if n == o {
      RivalSees(c, members, joiners, a, k, o, nd.view);
    }
  }

  lemma MemberSeesFirst(
      c: Config, members: set<string>, joiners: set<string>, a: string, k: string, o: string, homes: set<string>,
      n: string, nd: Node)
    requires SettledNode(c, members, n, nd) && n in members && n != "" && members !! joiners
    requires a in members && forall q :: q in members ==> Rank(c, a, c.sum64(k)) <= Rank(c, q, c.sum64(k))
    requires OneWay(c, joiners, a, k) && Rival(c, joiners, a, k, o) && (n in homes <==> k in nd.store)
    ensures SeesWay(c, members + joiners, homes, o, k, n, nd)
  {
    if k in nd.store {
      HomeSees(c, members, joiners, a, k, o, n, nd);
    }
  }

  lemma SeesFirst(
      c: Config, members: set<string>, joiners: set<string>, s0: Cluster, a: string, k: string, o: string, n: string)
    requires Gathering(c, members, joiners, s0) && a in members && k in s0[a].store && n in s0
    requires OneWay(c, joiners, a, k) && Rival(c, joiners, a, k, o)
    ensures SeesWay(c, members + joiners, HomesOf(members, s0, k), o, k, n, s0[n])
  {
    HolderIsNearest(c, members, a, s0[a], k);
    if n in joiners {
      JoinerAlone(c, members, joiners, s0, n);
      JoinerSeesFirst(c, members, joiners, a, k, o, HomesOf(members, s0, k), n, s0[n]);
    } else {
      MemberSeesFirst(c, members, joiners, a, k, o, HomesOf(members, s0, k), n, s0[n]);
    }
  }

  lemma AllSeeFirst(
      c: Config, members: set<string>, joiners: set<string>, s0: Cluster, a: string, k: string, o: string)
    requires Gathering(c, members, joiners, s0) && a in members && k in s0[a].store
    requires OneWay(c, joiners, a, k) && Rival(c, joiners, a, k, o)
    ensures AllSee(c, members + joiners, HomesOf(members, s0, k), o, k, s0)
  {
    forall n | n in s0
      ensures SeesWay(c, members + joiners, HomesOf(members, s0, k), o, k, n, s0[n])
    {
      SeesFirst(c, members, joiners, s0, a, k, o, n);
    }
  }

  lemma KeyTravels(
      c: Config, members: set<string>, joiners: set<string>, s0: Cluster, steps: seq<Step>, a: string, k: string,
      o: string)
    requires Gathering(c, members, joiners, s0) && a in members && k in s0[a].store
    requires OneWay(c, joiners, a, k) && Rival(c, joiners, a, k, o)
    requires Legal(c, s0, steps) && AllUndisturbed(steps)
    ensures Travels(c, members + joiners, HomesOf(members, s0, k), o, k, CellsOf(members, s0, k), Run(c, s0, steps))
  {
    SetsOut(c, members, joiners, s0, a, k, o);
    AllSeeFirst(c, members, joiners, s0, a, k, o);
    GatheringInv(c, members, joiners, s0);
    HolderIsNearest(c, members, a, s0[a], k);
    RunTravels(
      c, members + joiners, HomesOf(members, s0, k), s0, steps, o, k, CellsOf(members, s0, k));
  }

  /** The key has gone to the joiner `o`, which takes itself for the owner. */
  ghost predicate Gone(c: Config, members: set<string>, s0: Cluster, k: string, o: string, s: Cluster) {
    && o in s && (forall n :: n in s ==> (k in s[n].store <==> n == o))
    && s[o].store[k] in CellsOf(members, s0, k) && Owner(s[o].view.ring, c.sum64(k)) == o
  }

  lemma KeyGoes(
      c: Config, members: set<string>, joiners: set<string>, s0: Cluster, steps: seq<Step>, a: string, k: string,
      o: string)
    requires Gathering(c, members, joiners, s0) && a in members && k in s0[a].store
    requires OneWay(c, joiners, a, k) && Rival(c, joiners, a, k, o)
    requires Legal(c, s0, steps) && AllUndisturbed(steps) && Over(members + joiners, Run(c, s0, steps))
    ensures Gone(c, members, s0, k, o, Run(c, s0, steps))
  {
    KeyTravels(c, members, joiners, s0, steps, a, k, o);
    HasGone(c, members + joiners, members, s0, k, o, Run(c, s0, steps));
  }

  lemma HasGone(
      c: Config, names: set<string>, members: set<string>, s0: Cluster, k: string, o: string, s: Cluster)
    requires Travels(c, names, HomesOf(members, s0, k), o, k, CellsOf(members, s0, k), s)
    requires Over(names, s) && o in names
    ensures Gone(c, members, s0, k, o, s)
  {
    forall n | n in s
      ensures o in s[n].view.nodes
    {
      assert o in Elements(s[n].view.nodes);
    }
    forall n | n in s
      ensures k in s[n].store <==> n == o
    {
      LastCopy(s, o, o, k, CellsOf(members, s0, k), n);
    }
    LastCopy(s, o, o, k, CellsOf(members, s0, k), o);
    assert SeesWay(c, names, HomesOf(members, s0, k), o, k, o, s[o]);
  }

  // ----- a key that stays

  lemma HomeSeesItself(
      c: Config, members: set<string>, joiners: set<string>, a: string, k: string, n: string, nd: Node)
    requires SettledNode(c, members, n, nd) && n in members && n != "" && k in nd.store && a in members
    requires forall j :: j in joiners ==> !Rival(c, joiners, a, k, j)
    ensures Sees(c, members + joiners, n, n, c.sum64(k), nd.view)
  {
    HolderIsNearest(c, members, n, nd, k);
    forall who | who in members + joiners && who !in nd.view.nodes
      ensures Rank(c, n, c.sum64(k)) < Rank(c, who, c.sum64(k))
    {
      assert who !in Elements(nd.view.nodes);
      assert !Rival(c, joiners, a, k, who);
    }
  }

  lemma StaysPutFirst(
      c: Config, members: set<string>, joiners: set<string>, s0: Cluster, a: string, k: string, n: string)
    requires Gathering(c, members, joiners, s0) && a in members && n in s0
    requires forall j :: j in joiners ==> !Rival(c, joiners, a, k, j)
    ensures StaysPut(c, members + joiners, k, n, s0[n], s0[n])
  {
    if n in members && k in s0[n].store {
      HomeSeesItself(c, members, joiners, a, k, n, s0[n]);
    }
  }

  lemma AllStayPut(c: Config, members: set<string>, joiners: set<string>, s0: Cluster, a: string, k: string)
    requires Gathering(c, members, joiners, s0) && a in members
    requires forall j :: j in joiners ==> !Rival(c, joiners, a, k, j)
    ensures AtHome(c, members + joiners, k, s0, s0)
  {
    forall n | n in s0
      ensures StaysPut(c, members + joiners, k, n, s0[n], s0[n])
    {
      StaysPutFirst(c, members, joiners, s0, a, k, n);
    }
  }

  lemma KeyStays(
      c: Config, members: set<string>, joiners: set<string>, s0: Cluster, steps: seq<Step>, a: string, k: string)
    requires Gathering(c, members, joiners, s0) && a in members && k in s0[a].store
    requires forall j :: j in joiners ==> !Rival(c, joiners, a, k, j)
    requires Legal(c, s0, steps) && AllUndisturbed(steps)
    ensures AtHome(c, members + joiners, k, s0, Run(c, s0, steps))
  {
    AllStayPut(c, members, joiners, s0, a, k);
    GatheringInv(c, members, joiners, s0);
    HolderIsNearest(c, members, a, s0[a], k);
    RunAtHome(c, members + joiners, k, s0, s0, steps);
  }

  // ----- the end of a key's way

  /** However the joins interleave, who has the key in the end takes itself for
      the owner, and has a cell from before; one, if there was one before. */
  lemma KeyAtRest(
      c: Config, members: set<string>, joiners: set<string>, s0: Cluster, steps: seq<Step>, a: string, k: string)
    requires Gathering(c, members, joiners, s0) && a in members && k in s0[a].store && OneWay(c, joiners, a, k)
    requires Legal(c, s0, steps) && AllUndisturbed(steps) && Over(members + joiners, Run(c, s0, steps))
    ensures AllKeep(c, members, s0, k, Run(c, s0, steps))
    ensures AtOneNode(s0, k) ==>
              AtOneNode(Run(c, s0, steps), k) && StoredSomewhere(Run(c, s0, steps), k, s0[a].store[k])
  {
    if o :| Rival(c, joiners, a, k, o) {
      KeyGoes(c, members, joiners, s0, steps, a, k, o);
      GoneIsKept(c, members, s0, k, o, Run(c, s0, steps), a);
    } else {
      KeyStays(c, members, joiners, s0, steps, a, k);
      StayedIsKept(c, members, joiners, s0, k, Run(c, s0, steps), a);
    }
  }

  /** The node has the key as its own, with a cell from the beginning. */
  ghost predicate Keeps(c: Config, members: set<string>, s0: Cluster, k: string, n: string, nd: Node) {
    k in nd.store ==> Owner(nd.view.ring, c.sum64(k)) == n && nd.store[k] in CellsOf(members, s0, k)
  }

  ghost predicate AllKeep(c: Config, members: set<string>, s0: Cluster, k: string, s: Cluster) {
    forall n :: n in s ==> Keeps(c, members, s0, k, n, s[n])
  }

  lemma GoneIsKept(
      c: Config, members: set<string>, s0: Cluster, k: string, o: string, s: Cluster, a: string)
    requires Gone(c, members, s0, k, o, s) && a in members && a in s0 && k in s0[a].store
    ensures AllKeep(c, members, s0, k, s)
    ensures AtOneNode(s0, k) ==> AtOneNode(s, k) && StoredSomewhere(s, k, s0[a].store[k])
  {
  }

  lemma StayedIsKept(
      c: Config, members: set<string>, joiners: set<string>, s0: Cluster, k: string, s: Cluster, a: string)
    requires AtHome(c, members + joiners, k, s0, s) && s0.Keys == members + joiners && c.Count() > 0
    requires forall j :: j in joiners ==> k !in s0[j].store
    requires a in members && k in s0[a].store
    ensures AllKeep(c, members, s0, k, s)
    ensures AtOneNode(s0, k) ==> AtOneNode(s, k) && StoredSomewhere(s, k, s0[a].store[k])
  {
    forall n | n in s
      ensures Keeps(c, members, s0, k, n, s[n]) && (k in s[n].store <==> k in s0[n].store)
    {
      assert StaysPut(c, members + joiners, k, n, s0[n], s[n]);
    }
    assert StaysPut(c, members + joiners, k, a, s0[a], s[a]);
  }

  // ----- when a key is placed

  /** One nearest node in all, and at most one joiner as near as the home. */
  lemma KeyPlaced(
      c: Config, members: set<string>, joiners: set<string>, s0: Cluster, steps: seq<Step>, a: string, k: string)
    requires Gathering(c, members, joiners, s0) && a in members && k in s0[a].store
    requires OneNearest(c, members + joiners, c.sum64(k)) && AtMostOneRival(c, joiners, a, k)
    requires Legal(c, s0, steps) && AllUndisturbed(steps) && Over(members + joiners, Run(c, s0, steps))
    ensures AtOwner(c, Run(c, s0, steps), k)
    ensures Held(Run(c, s0, steps), k) && AllKeep(c, members, s0, k, Run(c, s0, steps))
  {
    HolderOneWay(c, members, joiners, s0, a, k);
    KeyAtRest(c, members, joiners, s0, steps, a, k);
    KeyStillHeld(c, members, joiners, s0, steps, a, k);
    KeptAtOwner(c, members, joiners, s0, steps, k);
  }

  lemma HolderOneWay(c: Config, members: set<string>, joiners: set<string>, s0: Cluster, a: string, k: string)
    requires Gathering(c, members, joiners, s0) && a in members && k in s0[a].store
    requires OneNearest(c, members + joiners, c.sum64(k)) && AtMostOneRival(c, joiners, a, k)
    ensures OneWay(c, joiners, a, k) && c.Count() > 0
  {
    HolderIsNearest(c, members, a, s0[a], k);
    OneNearestOneWay(c, members, joiners, a, k);
  }

  lemma OneNearestOneWay(c: Config, members: set<string>, joiners: set<string>, a: string, k: string)
    requires a in members && members !! joiners
    requires forall q :: q in members ==> Rank(c, a, c.sum64(k)) <= Rank(c, q, c.sum64(k))
    requires OneNearest(c, members + joiners, c.sum64(k)) && AtMostOneRival(c, joiners, a, k)
    ensures OneWay(c, joiners, a, k)
  {
    if i :| Rival(c, joiners, a, k, i) {
      forall m | m in members + joiners
        ensures Rank(c, i, c.sum64(k)) <= Rank(c, m, c.sum64(k))
      {
        assert m in joiners && m != i ==> !Rival(c, joiners, a, k, m);
      }
      assert NearestIn(c, members + joiners, c.sum64(k), i);
      assert Rank(c, i, c.sum64(k)) == Rank(c, a, c.sum64(k)) ==> NearestIn(c, members + joiners, c.sum64(k), a);
    }
  }

  lemma KeyStillHeld(
      c: Config, members: set<string>, joiners: set<string>, s0: Cluster, steps: seq<Step>, a: string, k: string)
    requires Gathering(c, members, joiners, s0) && a in members && k in s0[a].store && OneWay(c, joiners, a, k)
    requires Legal(c, s0, steps) && AllUndisturbed(steps)
    ensures Held(Run(c, s0, steps), k)
  {
    if o :| Rival(c, joiners, a, k, o) {
      KeyTravels(c, members, joiners, s0, steps, a, k, o);
    } else {
      KeyStays(c, members, joiners, s0, steps, a, k);
      assert StaysPut(c, members + joiners, k, a, s0[a], Run(c, s0, steps)[a]);
    }
  }

  /** With one nearest node, all views agree on it, and so on where the key is. */
  lemma KeptAtOwner(
      c: Config, members: set<string>, joiners: set<string>, s0: Cluster, steps: seq<Step>, k: string)
    requires Gathering(c, members, joiners, s0) && c.Count() > 0
    requires OneNearest(c, members + joiners, c.sum64(k))
    requires Legal(c, s0, steps) && AllUndisturbed(steps) && Over(members + joiners, Run(c, s0, steps))
    requires AllKeep(c, members, s0, k, Run(c, s0, steps)) && Held(Run(c, s0, steps), k)
    ensures AtOwner(c, Run(c, s0, steps), k)
  {
    var s, h := Run(c, s0, steps), c.sum64(k);
    var n :| n in s && k in s[n].store;
    assert Keeps(c, members, s0, k, n, s[n]);
    forall q | q in s
      ensures Owner(s[q].view.ring, h) == n && (k in s[q].store ==> q == n)
    {
      assert Keeps(c, members, s0, k, q, s[q]);
      SameOwnerInTheEnd(c, members, joiners, s0, steps, q, n, h);
    }
  }

  lemma SameOwnerInTheEnd(
      c: Config, members: set<string>, joiners: set<string>, s0: Cluster, steps: seq<Step>, q: string, n: string,
      h: Hash)
    requires Gathering(c, members, joiners, s0) && c.Count() > 0 && OneNearest(c, members + joiners, h)
    requires Legal(c, s0, steps) && AllUndisturbed(steps) && Over(members + joiners, Run(c, s0, steps))
    requires q in s0 && n in s0
    ensures Owner(Run(c, s0, steps)[q].view.ring, h) == Owner(Run(c, s0, steps)[n].view.ring, h)
  {
    OwnerInTheEnd(c, members, joiners, s0, steps, q, h);
    OwnerInTheEnd(c, members, joiners, s0, steps, n, h);
    assert NearestIn(c, members + joiners, h, Owner(Run(c, s0, steps)[q].view.ring, h));
    assert NearestIn(c, members + joiners, h, Owner(Run(c, s0, steps)[n].view.ring, h));
  }

  // ----- exactly when

  /** However the joins interleave, in the end the key is at its owner. */
  ghost predicate AlwaysPlaced(c: Config, names: set<string>, s0: Cluster, k: string) {
    forall steps :: Legal(c, s0, steps) && AllUndisturbed(steps) && Over(names, Run(c, s0, steps)) ==>
      AtOwner(c, Run(c, s0, steps), k)
  }

  /** Any number of nodes join a settled cluster at once. A key ends at its
      owner, of whom all views agree, in every interleaving exactly when one node
      is nearest to it, and at most one joiner is as near as the node that has it. */
  lemma PlacedIffAtMostOneRival(
      c: Config, members: set<string>, joiners: set<string>, s0: Cluster, a: string, k: string)
    requires Gathering(c, members, joiners, s0) && joiners != {} && a in members && k in s0[a].store
    ensures AlwaysPlaced(c, members + joiners, s0, k)
            <==> OneNearest(c, members + joiners, c.sum64(k)) && AtMostOneRival(c, joiners, a, k)
  {
    if OneNearest(c, members + joiners, c.sum64(k)) && AtMostOneRival(c, joiners, a, k) {
      forall steps | Legal(c, s0, steps) && AllUndisturbed(steps) && Over(members + joiners, Run(c, s0, steps))
        ensures AtOwner(c, Run(c, s0, steps), k)
      {
        KeyPlaced(c, members, joiners, s0, steps, a, k);
      }
    } else {
      var steps := NotAlwaysPlaced(c, members, joiners, s0, a, k);
    }
  }

  lemma NotAlwaysPlaced(c: Config, members: set<string>, joiners: set<string>, s0: Cluster, a: string, k: string)
    returns (steps: seq<Step>)
    requires Gathering(c, members, joiners, s0) && joiners != {} && a in members && k in s0[a].store
    requires !(OneNearest(c, members + joiners, c.sum64(k)) && AtMostOneRival(c, joiners, a, k))
    ensures Legal(c, s0, steps) && AllUndisturbed(steps) && Over(members + joiners, Run(c, s0, steps))
    ensures !AtOwner(c, Run(c, s0, steps), k)
  {
    if !OneWay(c, joiners, a, k) {
      var m;
      steps, m := MisplacesSomewhere(c, members, joiners, s0, a, k);
      assert m in Run(c, s0, steps);
    } else {
      HolderIsNearest(c, members, a, s0[a], k);
      var b := TiedMember(c, members, joiners, a, k);
      var x :| x in joiners;
      steps := Overlooks(c, members, joiners, s0, a, b, x, c.sum64(k));
      KeyStays(c, members, joiners, s0, steps, a, k);
      OverlookedNotPlaced(c, members + joiners, s0, Run(c, s0, steps), a, x, k);
    }
  }

  lemma OverlookedNotPlaced(
      c: Config, names: set<string>, s0: Cluster, s: Cluster, a: string, x: string, k: string)
    requires AtHome(c, names, k, s0, s) && a in s && x in s && k in s0[a].store
    requires Owner(s[x].view.ring, c.sum64(k)) != a
    ensures !AtOwner(c, s, k)
  {
    assert StaysPut(c, names, k, a, s0[a], s[a]);
  }

  /** Without a joiner as near, it is another member that ties with the home. */
  lemma TiedMember(c: Config, members: set<string>, joiners: set<string>, a: string, k: string) returns (b: string)
    requires a in members && members !! joiners && OneWay(c, joiners, a, k)
    requires forall q :: q in members ==> Rank(c, a, c.sum64(k)) <= Rank(c, q, c.sum64(k))
    requires !(OneNearest(c, members + joiners, c.sum64(k)) && AtMostOneRival(c, joiners, a, k))
    ensures b in members && b != a && Rank(c, b, c.sum64(k)) <= Rank(c, a, c.sum64(k))
    ensures forall j :: j in joiners ==> !Rival(c, joiners, a, k, j)
  {
    var names := members + joiners;
    var x, y :| NearestIn(c, names, c.sum64(k), x) && NearestIn(c, names, c.sum64(k), y) && x != y;
    assert x in joiners ==> Rival(c, joiners, a, k, x);
    assert y in joiners ==> Rival(c, joiners, a, k, y);
    assert Rank(c, x, c.sum64(k)) == Rank(c, y, c.sum64(k)) <= Rank(c, a, c.sum64(k));
    b := if x == a then y else x;
    forall j | j in joiners
      ensures !Rival(c, joiners, a, k, j)
    {
      assert Rank(c, x, c.sum64(k)) <= Rank(c, j, c.sum64(k));
    }
  }

  lemma MisplacesSomewhere(c: Config, members: set<string>, joiners: set<string>, s0: Cluster, a: string, k: string)
    returns (steps: seq<Step>, m: string)
    requires Gathering(c, members, joiners, s0) && a in members && k in s0[a].store && !OneWay(c, joiners, a, k)
    ensures Legal(c, s0, steps) && AllUndisturbed(steps) && Over(members + joiners, Run(c, s0, steps))
    ensures m in s0 && k in Run(c, s0, steps)[m].store && Owner(Run(c, s0, steps)[m].view.ring, c.sum64(k)) != m
  {
    var p;
    m, p := SecondBest(c, members, joiners, a, k);
    steps := Misplaces(c, members, joiners, s0, a, k, m, p);
  }

  lemma SecondBest(c: Config, members: set<string>, joiners: set<string>, a: string, k: string)
    returns (m: string, p: string)
    requires a in members && members !! joiners && !OneWay(c, joiners, a, k)
    ensures Rival(c, joiners, a, k, m)
    ensures p in members + joiners && p != m && Rank(c, p, c.sum64(k)) <= Rank(c, m, c.sum64(k))
  {
    var i, j :| Rival(c, joiners, a, k, i) && Rival(c, joiners, a, k, j)
                && !(i == j && Rank(c, i, c.sum64(k)) < Rank(c, a, c.sum64(k)));
    if i == j {
      m, p := i, a;
    } else if Rank(c, i, c.sum64(k)) < Rank(c, j, c.sum64(k)) {
      m, p := j, i;
    } else {
      m, p := i, j;
    }
  }

  // ----- the whole cluster

  /** Every stored key has one place to go. */
  ghost predicate Favourable(c: Config, members: set<string>, joiners: set<string>, s0: Cluster) {
    forall a, k :: a in members && a in s0 && k in s0[a].store ==> OneWay(c, joiners, a, k)
  }

  /** A key stored in the end was stored at a member before. */
  lemma CameFromMember(
      c: Config, members: set<string>, joiners: set<string>, s0: Cluster, steps: seq<Step>, n: string, k: string)
    returns (a: string)
    requires Gathering(c, members, joiners, s0) && Legal(c, s0, steps) && AllUndisturbed(steps)
    requires n in s0 && (k in Run(c, s0, steps)[n].store || InHand(Run(c, s0, steps)[n].task, k))
    ensures a in members && k in s0[a].store
  {
    assert !Nowhere(k, s0) by {
      GatheringInv(c, members, joiners, s0);
      if Nowhere(k, s0) {
        RunNowhere(c, members + joiners, s0, steps, k);
      }
    }
    a := SomewhereAtMember(c, members, joiners, s0, k);
  }

  lemma SomewhereAtMember(c: Config, members: set<string>, joiners: set<string>, s0: Cluster, k: string)
    returns (a: string)
    requires Gathering(c, members, joiners, s0) && !Nowhere(k, s0)
    ensures a in members && k in s0[a].store
  {
    a :| a in s0 && (k in s0[a].store || InHand(s0[a].task, k));
  }

  lemma CellsFromMembers(c: Config, members: set<string>, joiners: set<string>, s0: Cluster, k: string, cell: Cell)
    requires Gathering(c, members, joiners, s0) && cell in CellsOf(members, s0, k)
    ensures StoredSomewhere(s0, k, cell) && Transferable(cell)
  {
    var n :| n in members && n in s0 && k in s0[n].store && s0[n].store[k] == cell;
    assert SettledNode(c, members, n, s0[n]);
  }

  lemma StoredInTheEnd(
      c: Config, members: set<string>, joiners: set<string>, s0: Cluster, steps: seq<Step>, n: string, k: string)
    requires Gathering(c, members, joiners, s0) && Favourable(c, members, joiners, s0)
    requires Legal(c, s0, steps) && AllUndisturbed(steps) && Over(members + joiners, Run(c, s0, steps))
    requires n in s0 && k in Run(c, s0, steps)[n].store
    ensures Owner(Run(c, s0, steps)[n].view.ring, c.sum64(k)) == n && Transferable(Run(c, s0, steps)[n].store[k])
    ensures StoredSomewhere(s0, k, Run(c, s0, steps)[n].store[k])
  {
    var a := CameFromMember(c, members, joiners, s0, steps, n, k);
    KeyAtRest(c, members, joiners, s0, steps, a, k);
    assert Keeps(c, members, s0, k, n, Run(c, s0, steps)[n]);
    CellsFromMembers(c, members, joiners, s0, k, Run(c, s0, steps)[n].store[k]);
  }

  lemma NodeSettles(
      c: Config, members: set<string>, joiners: set<string>, s0: Cluster, steps: seq<Step>, s: Cluster, n: string)
    requires Gathering(c, members, joiners, s0) && Favourable(c, members, joiners, s0)
    requires Legal(c, s0, steps) && AllUndisturbed(steps) && s == Run(c, s0, steps) && n in s0
    requires Over(members + joiners, s)
    ensures SettledNode(c, members + joiners, n, s[n])
  {
    NodeInTheEnd(c, members, joiners, s0, steps, n);
    forall k | k in s[n].store
      ensures Owner(s[n].view.ring, c.sum64(k)) == n && Transferable(s[n].store[k])
    {
      StoredInTheEnd(c, members, joiners, s0, steps, n, k);
    }
  }

  /** When such joins are over, the cluster is settled on the members and the joiners. */
  lemma JoinsSettle(c: Config, members: set<string>, joiners: set<string>, s0: Cluster, steps: seq<Step>)
    requires Gathering(c, members, joiners, s0) && Favourable(c, members, joiners, s0)
    requires Legal(c, s0, steps) && AllUndisturbed(steps) && Over(members + joiners, Run(c, s0, steps))
    ensures Settled(c, members + joiners, Run(c, s0, steps))
  {
    forall n | n in Run(c, s0, steps)
      ensures SettledNode(c, members + joiners, n, Run(c, s0, steps)[n])
    {
      NodeSettles(c, members, joiners, s0, steps, Run(c, s0, steps), n);
    }
  }

  /** And it holds nothing that was not held before, and all that was, each at one
      node; a key that several members had may be left with one of their cells. */
  lemma JoinsKeepCells(
      c: Config, members: set<string>, joiners: set<string>, s0: Cluster, steps: seq<Step>, k: string, cell: Cell)
    requires Gathering(c, members, joiners, s0) && Favourable(c, members, joiners, s0)
    requires Legal(c, s0, steps) && AllUndisturbed(steps) && Over(members + joiners, Run(c, s0, steps))
    ensures Held(Run(c, s0, steps), k) <==> Held(s0, k)
    ensures StoredSomewhere(Run(c, s0, steps), k, cell) ==> StoredSomewhere(s0, k, cell)
    ensures AtOneNode(s0, k) ==>
              AtOneNode(Run(c, s0, steps), k)
              && (StoredSomewhere(Run(c, s0, steps), k, cell) <==> StoredSomewhere(s0, k, cell))
  {
    var s := Run(c, s0, steps);
    if n :| n in s && k in s[n].store {
      StoredInTheEnd(c, members, joiners, s0, steps, n, k);
    }
    if StoredSomewhere(s, k, cell) {
      var n :| n in s && k in s[n].store && s[n].store[k] == cell;
      StoredInTheEnd(c, members, joiners, s0, steps, n, k);
    }
    if Held(s0, k) {
      HeldInTheEnd(c, members, joiners, s0, steps, k, cell);
    }
  }

  lemma HeldInTheEnd(
      c: Config, members: set<string>, joiners: set<string>, s0: Cluster, steps: seq<Step>, k: string, cell: Cell)
    requires Gathering(c, members, joiners, s0) && Favourable(c, members, joiners, s0) && Held(s0, k)
    requires Legal(c, s0, steps) && AllUndisturbed(steps) && Over(members + joiners, Run(c, s0, steps))
    ensures Held(Run(c, s0, steps), k)
    ensures AtOneNode(s0, k) ==>
              AtOneNode(Run(c, s0, steps), k)
              && (StoredSomewhere(s0, k, cell) ==> StoredSomewhere(Run(c, s0, steps), k, cell))
  {
    var a := SomewhereAtMember(c, members, joiners, s0, k);
    KeyStillHeld(c, members, joiners, s0, steps, a, k);
    KeyAtRest(c, members, joiners, s0, steps, a, k);
  }

  // ----- exactly when

  ghost predicate AlwaysSettles(c: Config, names: set<string>, s0: Cluster) {
    forall steps :: Legal(c, s0, steps) && AllUndisturbed(steps) && Over(names, Run(c, s0, steps)) ==>
      Settled(c, names, Run(c, s0, steps))
  }

  /** The cluster settles in every interleaving exactly when every stored key has one place to go. */
  lemma SettlesIffFavourable(c: Config, members: set<string>, joiners: set<string>, s0: Cluster)
    requires Gathering(c, members, joiners, s0)
    ensures AlwaysSettles(c, members + joiners, s0) <==> Favourable(c, members, joiners, s0)
  {
    if Favourable(c, members, joiners, s0) {
      forall steps | Legal(c, s0, steps) && AllUndisturbed(steps) && Over(members + joiners, Run(c, s0, steps))
        ensures Settled(c, members + joiners, Run(c, s0, steps))
      {
        JoinsSettle(c, members, joiners, s0, steps);
      }
    } else {
      var a, k :| a in members && a in s0 && k in s0[a].store && !OneWay(c, joiners, a, k);
      var steps, m := MisplacesSomewhere(c, members, joiners, s0, a, k);
      NotSettled(c, members + joiners, Run(c, s0, steps), m, k);
    }
  }

  lemma NotSettled(c: Config, names: set<string>, s: Cluster, m: string, k: string)
    requires m in s && k in s[m].store && Owner(s[m].view.ring, c.sum64(k)) != m
    ensures !Settled(c, names, s)
  {
  }

  /** One join at a time settles the cluster in every interleaving, exactly if
      the joiner is as near as the home to no stored key. */
  lemma OneJoinSettles(c: Config, members: set<string>, m: string, s0: Cluster)
    requires Gathering(c, members, {m}, s0)
    ensures AlwaysSettles(c, members + {m}, s0) <==>
            forall a, k :: a in members && k in s0[a].store ==> Rank(c, m, c.sum64(k)) != Rank(c, a, c.sum64(k))
  {
    SettlesIffFavourable(c, members, {m}, s0);
    OneJoinerFavourable(c, members, m, s0);
  }

  lemma OneJoinerFavourable(c: Config, members: set<string>, m: string, s0: Cluster)
    requires members <= s0.Keys
    ensures Favourable(c, members, {m}, s0) <==>
            forall a, k :: a in members && k in s0[a].store ==> Rank(c, m, c.sum64(k)) != Rank(c, a, c.sum64(k))
  {
    forall a, k | a in members && k in s0[a].store
      ensures OneWay(c, {m}, a, k) <==> Rank(c, m, c.sum64(k)) != Rank(c, a, c.sum64(k))
    {
      assert Rival(c, {m}, a, k, m) <==> Rank(c, m, c.sum64(k)) <= Rank(c, a, c.sum64(k));
    }
  }

  // ----- under way

  /** A key in hand is on its way from a member to a joiner, which accepts it. */
  lemma InHandAtMember(
      c: Config, members: set<string>, joiners: set<string>, s0: Cluster, steps: seq<Step>, n: string, k: string)
    requires Gathering(c, members, joiners, s0) && Favourable(c, members, joiners, s0)
    requires Legal(c, s0, steps) && AllUndisturbed(steps) && n in s0 && InHand(Run(c, s0, steps)[n].task, k)
    ensures n in members && k in Run(c, s0, steps)[n].store
    ensures var task := Run(c, s0, steps)[n].task;
            task.Sending? ==>
              task.to in joiners && Accepts(task.pair) && Rank(c, task.to, c.sum64(k)) < Rank(c, n, c.sum64(k))
  {
    var a := CameFromMember(c, members, joiners, s0, steps, n, k);
    if o :| Rival(c, joiners, a, k, o) {
      KeyTravels(c, members, joiners, s0, steps, a, k, o);
      InHandTravels(c, members + joiners, HomesOf(members, s0, k), o, k, CellsOf(members, s0, k), Run(c, s0, steps), n);
      HolderIsNearest(c, members, a, s0[a], k);
    } else {
      KeyStays(c, members, joiners, s0, steps, a, k);
      NotInHandAtHome(c, members + joiners, k, s0, Run(c, s0, steps), n);
    }
  }

  lemma NotInHandAtHome(c: Config, names: set<string>, k: string, s0: Cluster, s: Cluster, n: string)
    requires AtHome(c, names, k, s0, s) && n in s
    ensures !InHand(s[n].task, k)
  {
    assert StaysPut(c, names, k, n, s0[n], s[n]);
  }

  lemma InHandTravels(
      c: Config, names: set<string>, homes: set<string>, o: string, k: string, cells: set<Cell>, s: Cluster, n: string)
    requires OnItsWay(o, o, k, cells, s) && AllSee(c, names, homes, o, k, s) && n in s && InHand(s[n].task, k)
    ensures n in homes && k in s[n].store && (s[n].task.Sending? ==> s[n].task.to == o && Accepts(s[n].task.pair))
  {
    assert Carries(n, s[n], o, o, k, cells, k in s[o].store);
    assert SeesWay(c, names, homes, o, k, n, s[n]);
  }

  /** A joiner never sends a key away. */
  lemma JoinersKeepKeys(
      c: Config, members: set<string>, joiners: set<string>, s0: Cluster, steps: seq<Step>, j: string)
    requires Gathering(c, members, joiners, s0) && Favourable(c, members, joiners, s0)
    requires Legal(c, s0, steps) && AllUndisturbed(steps) && j in joiners
    ensures j in Run(c, s0, steps) && (Run(c, s0, steps)[j].task.Idle? || Run(c, s0, steps)[j].task.Scanning?)
  {
    var task := Run(c, s0, steps)[j].task;
    if task.Sending? || task.Deleting? {
      InHandAtMember(c, members, joiners, s0, steps, j, if task.Sending? then task.pair.key else task.key);
    }
  }
}
