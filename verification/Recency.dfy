/** A GET is a use of its key, wherever it is sent: it keeps the key in the
    owner's LRU store. */
module Recency {
  import opened Values
  import opened HashRing
  import opened Eviction
  import opened Stores
  import opened Routing
  import CacheTheory
  import LruLoss

  // ----- at one store

  function Promoted(st: CacheTheory.Lru, max: int, n: nat): CacheTheory.Lru {
    if n == 0 then st else CacheTheory.LruStep(Promoted(st, max, n - 1), max, CacheTheory.Promoter)
  }

  lemma {:induction false} PromotedDrains(st: CacheTheory.Lru, max: int, n: nat)
    requires n <= |st.queue|
    ensures var st' := Promoted(st, max, n);
            && st'.queue == st.queue[n..]
            && CacheTheory.Drained(st'.list, st'.queue) == CacheTheory.Drained(st.list, st.queue)
  {
    if n > 0 {
      PromotedDrains(st, max, n - 1);
      CacheTheory.DrainedFront(Promoted(st, max, n - 1).list, Promoted(st, max, n - 1).queue);
    }
  }

  /** Enough turns of the promoter apply all that waits. */
  lemma {:induction false} AllPromoted(st: CacheTheory.Lru, max: int, n: nat)
    requires n >= |st.queue|
    ensures Promoted(st, max, n) == CacheTheory.Lru(CacheTheory.Drained(st.list, st.queue), [])
    decreases n
  {
    if n == |st.queue| {
      PromotedDrains(st, max, n);
      assert st.queue[n..] == [];
    } else {
      AllPromoted(st, max, n - 1);
    }
  }

  /** What a write leaves of another key is as it was. */
  lemma KeptValue(l: seq<Entry>, max: int, e: Entry, key: string)
    requires DistinctKeys(l) && key != e.key && HasKey(LruWrite(l, max, e), key)
    ensures Lookup(LruWrite(l, max, e), key) == Lookup(l, key)
  {
    var n := CacheTheory.LruWriteFacts(l, max, e);
    var l' := LruWrite(l, max, e);
    var i := IndexOf(l', key);
    WithoutFacts(l, e.key);
    assert l'[i] in [e] + Without(l, e.key);
    var j :| 0 <= j < |l| && l[j] == l'[i];
    IndexUnique(l, j);
  }

  lemma LostValue(l: seq<Entry>, key: string)
    requires !HasKey(l, key)
    ensures Lookup(l, key) == NilValue
  {
  }

  /** The list once a read and all that waited before it have been applied. */
  lemma ReadInFront(st: CacheTheory.Lru, max: int, key: string, n: nat) returns (d: seq<Entry>)
    requires DistinctKeys(st.list) && HasKey(st.list, key) && |st.queue| < 512 && n > |st.queue|
    ensures DistinctKeys(d) && HasKey(d, key) && Lookup(d, key) == Lookup(st.list, key)
    ensures Promoted(CacheTheory.LruStep(st, max, CacheTheory.Read(key)), max, n)
            == CacheTheory.Lru(Promote(d, key), [])
  {
    d := CacheTheory.Drained(st.list, st.queue);
    CacheTheory.DrainedDistinct(st.list, st.queue);
    LruLoss.SameEntry(st.list, st.queue, key);
    AllPromoted(CacheTheory.Lru(st.list, st.queue + [key]), max, n);
    assert (st.queue + [key])[..|st.queue|] == st.queue;
  }

  /** So a read saves its key from the next write of another one, if both fit. */
  lemma ReadThenWrite(st: CacheTheory.Lru, max: int, key: string, n: nat, e: Entry)
    requires DistinctKeys(st.list) && HasKey(st.list, key) && |st.queue| < 512 && n > |st.queue| && e.key != key
    ensures var st' := Promoted(CacheTheory.LruStep(st, max, CacheTheory.Read(key)), max, n);
            var v := Lookup(st.list, key);
            && DistinctKeys(st'.list) && Lookup(st'.list, key) == v
            && Lookup(LruWrite(st'.list, max, e), key) == if e.value.Len() + v.Len() <= max then v else NilValue
  {
    var d := ReadInFront(st, max, key, n);
    var l := Promote(d, key);
    LruLoss.NeededInFront(d, e, key);
    LruLoss.SurvivesIff(l, max, e, key);
    CacheTheory.PromoteFacts(d, key);
    SameEntriesSameValue(d, l, key);
    if HasKey(LruWrite(l, max, e), key) {
      KeptValue(l, max, e, key);
    } else {
      LostValue(LruWrite(l, max, e), key);
    }
  }

  // ----- through any server

  /** `n` turns of the promoter of that server's store. */
  function Promotions(at: string, n: nat): (reqs: seq<Request>)
    ensures forall req :: req in reqs ==> req == Promotion(at)
  {
    if n == 0 then [] else Promotions(at, n - 1) + [Promotion(at)]
  }

  lemma PromotionsUnfold(c: Config, ss: Servers, at: string, n: nat)
    requires at in ss && n > 0
    ensures ServeAll(c, ss, Promotions(at, n)) == Served(c, ServeAll(c, ss, Promotions(at, n - 1)), Promotion(at))
  {
    var reqs := Promotions(at, n);
    assert reqs[..|reqs| - 1] == Promotions(at, n - 1) && reqs[|reqs| - 1] == Promotion(at);
  }

  lemma PromotionServed(c: Config, ss: Servers, at: string)
    requires at in ss && ValidStores(ss) && ss[at].store.Lru?
    ensures var ss', st := Served(c, ss, Promotion(at)), ss[at].store;
            && SameServers(ss, ss') && ValidStores(ss')
            && ss'[at].store == Lru(st.max, CacheTheory.LruStep(st.state, st.max, CacheTheory.Promoter))
  {
    ServedStore(c, ss, Promotion(at), at);
    ServedKeeps(c, ss, Promotion(at));
  }

  lemma {:induction false} PromotionsServed(c: Config, ss: Servers, at: string, n: nat)
    requires at in ss && ValidStores(ss) && ss[at].store.Lru?
    ensures var ss', st := ServeAll(c, ss, Promotions(at, n)), ss[at].store;
            SameServers(ss, ss') && ValidStores(ss') && ss'[at].store == Lru(st.max, Promoted(st.state, st.max, n))
  {
    if n > 0 {
      PromotionsServed(c, ss, at, n - 1);
      PromotionServed(c, ServeAll(c, ss, Promotions(at, n - 1)), at);
      PromotionsUnfold(c, ss, at, n);
      SameTwice(ss, ServeAll(c, ss, Promotions(at, n - 1)), ServeAll(c, ss, Promotions(at, n)));
    }
  }

  /** The servers after a GET, and enough turns of the promoter at the owner. */
  function Used(c: Config, ss: Servers, at: string, key: string, n: nat): (ss': Servers)
    requires at in ss && Target(c, ss[at], key) in ss
    ensures ss'.Keys == ss.Keys
  {
    ServeAll(c, Served(c, ss, GET(at, key)), Promotions(Target(c, ss[at], key), n))
  }

  lemma StoreUsed(c: Config, ss: Servers, at: string, key: string, n: nat, owner: string)
    requires Agreed(c, ss, key) && ValidStores(ss) && at in ss && key != ""
    requires owner == Target(c, ss[at], key) && owner in ss && ss[owner].store.Lru?
    ensures var st := ss[owner].store;
            && SameServers(ss, Used(c, ss, at, key, n)) && ValidStores(Used(c, ss, at, key, n))
            && Used(c, ss, at, key, n)[owner].store ==
               Lru(st.max, Promoted(CacheTheory.LruStep(st.state, st.max, CacheTheory.Read(key)), st.max, n))
  {
    var ss1 := Served(c, ss, GET(at, key));
    SameTarget(c, ss, key, at, at);
    ServedStore(c, ss, GET(at, key), owner);
    ServedKeeps(c, ss, GET(at, key));
    PromotionsServed(c, ss1, owner, n);
    SameTwice(ss, ss1, Used(c, ss, at, key, n));
  }

  lemma SameArrival(c: Config, ss: Servers, ss': Servers, req: Request)
    requires SameServers(ss, ss') && req.at in ss
    ensures Arrives(c, ss', req) == Arrives(c, ss, req) && ServedAt(c, ss', req) == ServedAt(c, ss, req)
  {
    assert SameServer(ss[req.at], ss'[req.at]);
  }

  /** What the owner has of the key once another key has been written. */
  lemma StoreWritten(
      c: Config, ss: Servers, ss': Servers, owner: string, via: string, other: string, body: seq<byte>, key: string)
    requires SameServers(ss, ss') && ValidStores(ss') && owner in ss && via in ss && ss[owner].store.Lru?
    ensures var post, st' := POST(via, other, body), ss'[owner].store;
            && st'.Lru? && st'.max == ss[owner].store.max
            && Get(Served(c, ss', post)[owner].store, key) ==
               if Arrives(c, ss, post) && ServedAt(c, ss, post) == owner
               then Lookup(LruWrite(st'.state.list, st'.max, Entry(other, c.sum64(other), Bytes(body))), key)
               else Lookup(st'.state.list, key)
  {
    assert SameServer(ss[owner], ss'[owner]);
    SameArrival(c, ss, ss', POST(via, other, body));
    ServedStore(c, ss', POST(via, other, body), owner);
  }

  /** A GET, at whichever server, is a use of the key at its owner: unless 512 reads
      wait there already, and once the promoter has worked off those that do, a POST
      of another key costs the key its place exactly if it arrives there and the two
      values do not fit together. Otherwise every server finds the key as before. */
  lemma GetCountsAsUse(
      c: Config, ss: Servers, at: string, key: string, n: nat, via: string, other: string, body: seq<byte>,
      from: string)
    requires Agreed(c, ss, key) && ValidStores(ss) && at in ss && via in ss && from in ss && key != "" && other != key
    requires var owner := Target(c, ss[at], key);
             && owner in ss && ss[owner].store.Lru? && HasKey(ss[owner].store.state.list, key)
             && |ss[owner].store.state.queue| < 512 && n > |ss[owner].store.state.queue|
             && Get(ss[owner].store, key) != NilValue && (from == owner || Get(ss[owner].store, key).Len() > 0)
    ensures var owner, post := Target(c, ss[at], key), POST(via, other, body);
            var v := Get(ss[owner].store, key);
            HandleGet(c, Served(c, Used(c, ss, at, key, n), post), from, key) ==
            if Arrives(c, ss, post) && ServedAt(c, ss, post) == owner && |body| + v.Len() > ss[owner].store.max
            then NoSuchKey else Found(v)
  {
    var owner, post, ss2 := Target(c, ss[at], key), POST(via, other, body), Used(c, ss, at, key, n);
    var st := ss[owner].store;
    StoreUsed(c, ss, at, key, n, owner);
    ReadThenWrite(st.state, st.max, key, n, Entry(other, c.sum64(other), Bytes(body)));
    StoreWritten(c, ss, ss2, owner, via, other, body, key);
    AnswersAfter(c, ss, ss2, post, owner, from, at, key);
  }

  lemma AnswersAfter(
      c: Config, ss: Servers, ss': Servers, req: Request, owner: string, from: string, at: string, key: string)
    requires Agreed(c, ss, key) && SameServers(ss, ss') && ValidStores(ss') && req.at in ss
    requires at in ss && from in ss && key != "" && owner == Target(c, ss[at], key)
    ensures owner in ss
    ensures var v := Get(Served(c, ss', req)[owner].store, key);
            HandleGet(c, Served(c, ss', req), from, key) ==
            if v == NilValue || (from != owner && v.Len() == 0) then NoSuchKey else Found(v)
  {
    var ss3 := Served(c, ss', req);
    ServedKeeps(c, ss', req);
    SameTwice(ss, ss', ss3);
    StillAgreed(c, ss, ss3, key);
    SameTarget(c, ss, key, at, from);
    assert SameServer(ss[from], ss3[from]);
    GetAnswersOwner(c, ss3, from, key);
  }
}
