/** Client requests: routed by the ring, served by the owner's store or
    forwarded to it. */
module Routing {
  import opened Values
  import opened HashRing
  import opened RingTheory
  import opened Grpc
  import opened Eviction
  import opened Stores
  import CacheTheory
  import GrpcServer

  /** Go's append of a chunk: appending nothing to nil leaves nil. */
  function Appended(v: Value, chunk: Value): Value {
    if chunk.Len() == 0 then v
    else Bytes((if v == NilValue then [] else v.data) + chunk.data)
  }

  function Concatenated(payload: seq<Value>): Value {
    if payload == [] then NilValue else Appended(Concatenated(payload[..|payload| - 1]), payload[|payload| - 1])
  }

  /** The bytes of the chunks, one behind the other. */
  function AllBytes(payload: seq<Value>): seq<byte> {
    if payload == [] then []
    else AllBytes(payload[..|payload| - 1])
         + (var chunk := payload[|payload| - 1]; if chunk == NilValue then [] else chunk.data)
  }

  /** Joining forgets where the chunks end, and that there were any if all are empty. */
  lemma {:induction false} JoinedBytes(payload: seq<Value>)
    ensures Concatenated(payload) == if AllBytes(payload) == [] then NilValue else Bytes(AllBytes(payload))
  {
    if payload != [] {
      JoinedBytes(payload[..|payload| - 1]);
    }
  }

  method JoinChunks(payload: seq<Value>) returns (full: Value)
    ensures full == Concatenated(payload)
  {
    full := NilValue;
    for i := 0 to |payload|
      invariant full == Concatenated(payload[..i])
    {
      assert payload[..i + 1][..i] == payload[..i];
      full := Appended(full, payload[i]);
    }
    assert payload[..|payload|] == payload;
  }

  // ----- requests

  datatype Server = Server(view: RingState, pool: set<string>, store: Store)

  type Servers = map<string, Server>

  datatype Response = Accepted | BadRequest | NoSuchKey | Found(value: Value) | Failed | NotSupported

  /** What clients ask of a server; and a turn of the promoter behind its store. */
  datatype Request =
    | GET(at: string, key: string)
    | POST(at: string, key: string, body: seq<byte>)
    | DELETE(at: string, key: string)
    | Promotion(at: string)

  function Target(c: Config, sv: Server, key: string): string {
    Owner(sv.view.ring, c.sum64(key))
  }

  /** A store operation at one server. */
  function Touch(ss: Servers, n: string, op: CacheTheory.Op): Servers
    requires n in ss
  {
    ss[n := ss[n].(store := Do(ss[n].store, op))]
  }

  function HandleGet(c: Config, ss: Servers, at: string, key: string): Response
    requires at in ss
  {
    var target := Target(c, ss[at], key);
    if key == "" then BadRequest
    else if target == at then
      if Get(ss[at].store, key) == NilValue then NoSuchKey else Found(Get(ss[at].store, key))
    else if target !in ss[at].pool || target !in ss then Failed
    else
      match GrpcServer.RemoteRead(ss[target].store, key)
      case Error(NotFound) => NoSuchKey
      case Error(InvalidArgument) => Failed
      case Ok(payload) => if Concatenated(payload) == NilValue then NoSuchKey else Found(Concatenated(payload))
  }

  /** The answer to a POST does not wait for the write, and does not tell how it went. */
  function HandlePost(key: string): Response {
    if key == "" then BadRequest else Accepted
  }

  function HandleDelete(c: Config, ss: Servers, at: string, key: string): Response
    requires at in ss
  {
    if key == "" then BadRequest else if Target(c, ss[at], key) == at then Accepted else NotSupported
  }

  predicate Reaches(ss: Servers, at: string, target: string)
    requires at in ss
  {
    target in ss[at].pool && target in ss
  }

  /** The stores once a request has been served and its write or delete, which
      runs in the background, has arrived. */
  function Served(c: Config, ss: Servers, req: Request): (ss': Servers)
    requires req.at in ss
    ensures ss'.Keys == ss.Keys
  {
    match req
    case Promotion(at) => Touch(ss, at, CacheTheory.Promoter)
    case GET(at, key) =>
      var target := Target(c, ss[at], key);
      if key != "" && (target == at || Reaches(ss, at, target)) then Touch(ss, target, CacheTheory.Read(key)) else ss
    case POST(at, key, body) =>
      var target := Target(c, ss[at], key);
      if key == "" then ss
      else if target == at then Touch(ss, at, CacheTheory.Write(key, c.sum64(key), Bytes(body)))
      else if Reaches(ss, at, target) then
        var pair := KeyValuePair(key, c.sum64(key), Bytes(body));
        ss[target := ss[target].(store := GrpcServer.RemoteWrite(ss[target].store, pair).0)]
      else ss
    case DELETE(at, key) =>
      if key != "" && Target(c, ss[at], key) == at then Touch(ss, at, CacheTheory.Delete(key)) else ss
  }

  function ServeAll(c: Config, ss: Servers, reqs: seq<Request>): (ss': Servers)
    requires forall req :: req in reqs ==> req.at in ss
    ensures ss'.Keys == ss.Keys
  {
    if reqs == [] then ss
    else
      var before := ServeAll(c, ss, reqs[..|reqs| - 1]);
      assert reqs[|reqs| - 1] in reqs;
      Served(c, before, reqs[|reqs| - 1])
  }

  // ----- settled clusters

  /** Everybody knows everybody, and no two servers are nearest to the key. */
  ghost predicate Agreed(c: Config, ss: Servers, key: string) {
    && c.Count() > 0 && "" !in ss && OneNearest(c, ss.Keys, c.sum64(key))
    && forall n :: n in ss ==>
         WellFormed(c, ss[n].view) && Elements(ss[n].view.nodes) == ss.Keys && ss.Keys - {n} <= ss[n].pool
  }

  ghost predicate ValidStores(ss: Servers) {
    forall n :: n in ss ==> ValidStore(ss[n].store)
  }

  /** All servers route a key to the same one, which exists and can be reached. */
  lemma SameTarget(c: Config, ss: Servers, key: string, a: string, b: string)
    requires Agreed(c, ss, key) && a in ss && b in ss
    ensures Target(c, ss[a], key) == Target(c, ss[b], key) && Target(c, ss[a], key) in ss
    ensures Target(c, ss[a], key) != a ==> Target(c, ss[a], key) in ss[a].pool
  {
    TargetIsNearest(c, ss, key, a);
    TargetIsNearest(c, ss, key, b);
  }

  lemma TargetIsNearest(c: Config, ss: Servers, key: string, a: string)
    requires Agreed(c, ss, key) && a in ss
    ensures Target(c, ss[a], key) in ss && (Target(c, ss[a], key) != a ==> Target(c, ss[a], key) in ss[a].pool)
    ensures NearestIn(c, ss.Keys, c.sum64(key), Target(c, ss[a], key))
  {
    assert a in Elements(ss[a].view.nodes);
    OwnerIsNearestIn(c, ss[a].view, c.sum64(key));
  }

  lemma JoinedOne(v: Value)
    ensures Concatenated([v]) == Wire(v)
  {
    assert [v][..0] == [];
  }

  /** A GET answers what the owner has, except that an empty value seems
      missing from any other server. */
  lemma GetAnswersOwner(c: Config, ss: Servers, from: string, key: string)
    requires Agreed(c, ss, key) && from in ss && key != ""
    ensures var owner := Target(c, ss[from], key);
            && owner in ss
            && var v := Get(ss[owner].store, key);
               HandleGet(c, ss, from, key) ==
               if v == NilValue || (from != owner && v.Len() == 0) then NoSuchKey else Found(v)
  {
    SameTarget(c, ss, key, from, from);
    var owner := Target(c, ss[from], key);
    JoinedOne(Get(ss[owner].store, key));
  }

  /** How requests are answered: without a key, not at all; a GET whose owner is not
      connected fails; else it finds the value that the owner has, or that there is none. */
  lemma Answers(c: Config, ss: Servers, at: string, key: string)
    requires at in ss
    ensures HandleGet(c, ss, at, key) == BadRequest <==> key == ""
    ensures HandlePost(key) == if key == "" then BadRequest else Accepted
    ensures HandleDelete(c, ss, at, key) == BadRequest <==> key == ""
    ensures HandleDelete(c, ss, at, key) == Accepted <==> key != "" && Target(c, ss[at], key) == at
    ensures HandleDelete(c, ss, at, key) == NotSupported <==> key != "" && Target(c, ss[at], key) != at
    ensures key != "" ==>
              var owner := Target(c, ss[at], key);
              && (HandleGet(c, ss, at, key) == Failed <==> owner != at && !Reaches(ss, at, owner))
              && (owner == at || Reaches(ss, at, owner) ==>
                    var v := Get(ss[owner].store, key);
                    HandleGet(c, ss, at, key) ==
                    if v == NilValue || (owner != at && v.Len() == 0) then NoSuchKey else Found(v))
  {
    if key != "" && Reaches(ss, at, Target(c, ss[at], key)) {
      JoinedOne(Get(ss[Target(c, ss[at], key)].store, key));
    }
  }

  /** A POST reaches the owner's store unless remote writes refuse it. */
  lemma PostReachesOwner(c: Config, ss: Servers, at: string, key: string, body: seq<byte>)
    requires Agreed(c, ss, key) && ValidStores(ss) && at in ss && key != ""
    ensures var owner := Target(c, ss[at], key);
            && owner in ss
            && Get(Served(c, ss, POST(at, key, body))[owner].store, key) ==
               if at != owner && (c.sum64(key) == 0 || body == []) then Get(ss[owner].store, key)
               else if Fits(ss[owner].store, Bytes(body)) then Bytes(body) else NilValue
    ensures var owner := Target(c, ss[at], key);
            (at == owner || (c.sum64(key) != 0 && body != [])) && Fits(ss[owner].store, Bytes(body)) ==>
              Holds(Served(c, ss, POST(at, key, body))[owner].store, key, Cell(c.sum64(key), Bytes(body)))
  {
    SameTarget(c, ss, key, at, at);
    var owner := Target(c, ss[at], key);
    AcceptsIff(KeyValuePair(key, c.sum64(key), Bytes(body)));
    GetAfterWrite(ss[owner].store, key, c.sum64(key), Bytes(body));
  }

  /** A DELETE works at the owner alone: there it is accepted, and then nobody
      finds the key; anywhere else it is answered as not supported, and nothing
      changes. */
  lemma DeleteWorksAtOwner(c: Config, ss: Servers, at: string, key: string, from: string)
    requires Agreed(c, ss, key) && ValidStores(ss) && at in ss && from in ss && key != ""
    ensures var ss', answer := Served(c, ss, DELETE(at, key)), HandleDelete(c, ss, at, key);
            if at == Target(c, ss[at], key) then answer == Accepted && HandleGet(c, ss', from, key) == NoSuchKey
            else answer == NotSupported && ss' == ss
  {
    if at == Target(c, ss[at], key) {
      DeletedEverywhere(c, ss, at, key, from);
    }
    DeleteAnswered(c, ss, at, key);
  }

  lemma DeleteAnswered(c: Config, ss: Servers, at: string, key: string)
    requires at in ss && key != ""
    ensures if at == Target(c, ss[at], key) then HandleDelete(c, ss, at, key) == Accepted
            else HandleDelete(c, ss, at, key) == NotSupported && Served(c, ss, DELETE(at, key)) == ss
  {
  }

  lemma DeletedEverywhere(c: Config, ss: Servers, at: string, key: string, from: string)
    requires Agreed(c, ss, key) && ValidStores(ss) && at in ss && from in ss && key != ""
    requires at == Target(c, ss[at], key)
    ensures HandleGet(c, Served(c, ss, DELETE(at, key)), from, key) == NoSuchKey
  {
    ServedKeeps(c, ss, DELETE(at, key));
    DeletedAtOwner(c, ss, at, key);
    GoneEverywhere(c, ss, Served(c, ss, DELETE(at, key)), at, key, from);
  }

  lemma DeletedAtOwner(c: Config, ss: Servers, at: string, key: string)
    requires at in ss && ValidStore(ss[at].store) && key != "" && Target(c, ss[at], key) == at
    ensures Get(Served(c, ss, DELETE(at, key))[at].store, key) == NilValue
  {
    DeletedIsGone(ss[at].store, key);
  }

  /** What the owner does not have, nobody finds. */
  lemma GoneEverywhere(c: Config, ss: Servers, ss': Servers, owner: string, key: string, from: string)
    requires Agreed(c, ss, key) && SameServers(ss, ss') && owner in ss && from in ss && key != ""
    requires Target(c, ss[owner], key) == owner && Get(ss'[owner].store, key) == NilValue
    ensures HandleGet(c, ss', from, key) == NoSuchKey
  {
    SameTarget(c, ss, key, owner, from);
    StillAgreed(c, ss, ss', key);
    assert SameServer(ss[from], ss'[from]);
    GetAnswersOwner(c, ss', from, key);
  }

  lemma DeletedIsGone(st: Store, key: string)
    requires ValidStore(st)
    ensures Get(Do(st, CacheTheory.Delete(key)), key) == NilValue
  {
    match st
    case Plain(_) =>
    case Fifo(_, queue) => WithoutFacts(queue, key);
    case Lru(_, state) => WithoutFacts(state.list, key);
  }

  /** The answer to a POST says nothing about the write: any key that is not
      empty is accepted, even where the owner never gets the value. */
  lemma AcceptedIsNotStored(c: Config, ss: Servers, at: string, key: string)
    requires Agreed(c, ss, key) && ValidStores(ss) && at in ss && key != "" && at != Target(c, ss[at], key)
    ensures HandlePost(key) == Accepted
    ensures forall from :: from in ss ==>
              HandleGet(c, Served(c, ss, POST(at, key, [])), from, key) == HandleGet(c, ss, from, key)
  {
    SameTarget(c, ss, key, at, at);
    assert Served(c, ss, POST(at, key, [])) == ss;
  }

  predicate SameServer(sv: Server, sv': Server) {
    && sv'.view == sv.view && sv'.pool == sv.pool
    && (sv'.store.Plain? <==> sv.store.Plain?) && (sv'.store.Lru? <==> sv.store.Lru?)
    && (!sv.store.Plain? ==> sv'.store.max == sv.store.max)
  }

  /** The servers differ in nothing but what their stores hold. */
  ghost predicate SameServers(ss: Servers, ss': Servers) {
    ss'.Keys == ss.Keys && forall n :: n in ss ==> SameServer(ss[n], ss'[n])
  }

  lemma StillAgreed(c: Config, ss: Servers, ss': Servers, key: string)
    requires Agreed(c, ss, key) && SameServers(ss, ss')
    ensures Agreed(c, ss', key)
  {
    forall n | n in ss'
      ensures WellFormed(c, ss'[n].view) && Elements(ss'[n].view.nodes) == ss'.Keys && ss'.Keys - {n} <= ss'[n].pool
    {
      assert SameServer(ss[n], ss'[n]);
    }
  }

  lemma ServedKeeps(c: Config, ss: Servers, req: Request)
    requires req.at in ss && ValidStores(ss)
    ensures SameServers(ss, Served(c, ss, req)) && ValidStores(Served(c, ss, req))
  {
    forall n | n in ss
      ensures SameServer(ss[n], Served(c, ss, req)[n]) && ValidStore(Served(c, ss, req)[n].store)
    {
      ServedStore(c, ss, req, n);
    }
  }

  /** The operation a request amounts to, at the server it is routed to. */
  function Operation(c: Config, req: Request): CacheTheory.Op {
    match req
    case GET(_, key) => CacheTheory.Read(key)
    case POST(_, key, body) => CacheTheory.Write(key, c.sum64(key), Bytes(body))
    case DELETE(_, key) => CacheTheory.Delete(key)
    case Promotion(_) => CacheTheory.Promoter
  }

  function ServedAt(c: Config, ss: Servers, req: Request): string
    requires req.at in ss
  {
    if req.Promotion? then req.at else Target(c, ss[req.at], req.key)
  }

  /** The request gets as far as that server's store: it has a key, and is served
      where it came in, or the owner is connected; a write is accepted there; a
      delete is not passed on. */
  predicate Arrives(c: Config, ss: Servers, req: Request)
    requires req.at in ss
  {
    req.Promotion?
    || (req.key != ""
        && var owner := Target(c, ss[req.at], req.key);
           owner == req.at
           || (Reaches(ss, req.at, owner) && !req.DELETE? && (req.POST? ==> c.sum64(req.key) != 0 && req.body != [])))
  }

  /** What serving a request does: its operation at that one store, if it arrives
      there, and else nothing. */
  lemma ServedStore(c: Config, ss: Servers, req: Request, n: string)
    requires req.at in ss && n in ss && ValidStore(ss[n].store)
    ensures n in Served(c, ss, req) && SameServer(ss[n], Served(c, ss, req)[n])
    ensures ValidStore(Served(c, ss, req)[n].store)
    ensures Served(c, ss, req)[n].store ==
            if n == ServedAt(c, ss, req) && Arrives(c, ss, req) then Do(ss[n].store, Operation(c, req)) else ss[n].store
  {
    if req.POST? {
      AcceptsIff(KeyValuePair(req.key, c.sum64(req.key), Bytes(req.body)));
    }
    ValidAfter(ss[n].store, Operation(c, req));
  }

  /** A request that leaves the key's value alone: any GET, and any turn of a
      promoter; a write or delete of another key, if the owner evicts nothing or
      another server owns that key. */
  predicate Harmless(c: Config, ss: Servers, key: string, owner: string, req: Request)
    requires req.at in ss && owner in ss
  {
    || req.GET? || req.Promotion?
    || (req.key != key && (ss[owner].store.Plain? || Target(c, ss[req.at], req.key) != owner))
  }

  lemma HarmlessKeepsValue(c: Config, ss: Servers, key: string, owner: string, req: Request)
    requires req.at in ss && owner in ss && Harmless(c, ss, key, owner, req) && ValidStore(ss[owner].store)
    ensures owner in Served(c, ss, req) && Get(Served(c, ss, req)[owner].store, key) == Get(ss[owner].store, key)
  {
    ServedStore(c, ss, req, owner);
    PromoterKeeps(ss[owner].store, key);
  }

  lemma {:induction false} RunKeepsValue(
      c: Config, ss: Servers, key: string, owner: string, reqs: seq<Request>)
    requires ValidStores(ss) && owner in ss
    requires forall req :: req in reqs ==> req.at in ss && Harmless(c, ss, key, owner, req)
    ensures SameServers(ss, ServeAll(c, ss, reqs)) && ValidStores(ServeAll(c, ss, reqs))
    ensures Get(ServeAll(c, ss, reqs)[owner].store, key) == Get(ss[owner].store, key)
  {
    if reqs != [] {
      var rest, req := reqs[..|reqs| - 1], reqs[|reqs| - 1];
      RunKeepsValue(c, ss, key, owner, rest);
      var before := ServeAll(c, ss, rest);
      assert req in reqs;
      assert SameServer(ss[owner], before[owner]) && SameServer(ss[req.at], before[req.at]);
      HarmlessKeepsValue(c, before, key, owner, req);
      ServedKeeps(c, before, req);
      SameTwice(ss, before, Served(c, before, req));
    }
  }

  lemma SameTwice(a: Servers, b: Servers, d: Servers)
    requires SameServers(a, b) && SameServers(b, d)
    ensures SameServers(a, d)
  {
    forall n | n in a
      ensures SameServer(a[n], d[n])
    {
      assert SameServer(a[n], b[n]) && SameServer(b[n], d[n]);
    }
  }

  /** Read your write, from any server to any other: once a POST of a non-empty
      value under a non-zero hash has arrived, a GET at any server answers that
      value, after any number of requests that leave it alone. */
  lemma ReadYourWrite(
      c: Config, ss: Servers, at: string, key: string, body: seq<byte>, reqs: seq<Request>, from: string)
    requires at in ss && from in ss && Target(c, ss[at], key) in ss
    requires forall req :: req in reqs ==> req.at in ss && Harmless(c, ss, key, Target(c, ss[at], key), req)
    requires Fits(ss[Target(c, ss[at], key)].store, Bytes(body))
    requires key != "" && body != [] && c.sum64(key) != 0
    requires Agreed(c, ss, key) && ValidStores(ss)
    ensures HandleGet(c, ServeAll(c, Served(c, ss, POST(at, key, body)), reqs), from, key) == Found(Bytes(body))
  {
    var owner, ss' := Target(c, ss[at], key), Served(c, ss, POST(at, key, body));
    PostReachesOwner(c, ss, at, key, body);
    ServedKeeps(c, ss, POST(at, key, body));
    forall req | req in reqs
      ensures Harmless(c, ss', key, owner, req)
    {
      assert Harmless(c, ss, key, owner, req);
      assert SameServer(ss[owner], ss'[owner]) && SameServer(ss[req.at], ss'[req.at]);
    }
    RunKeepsValue(c, ss', key, owner, reqs);
    var ss'' := ServeAll(c, ss', reqs);
    SameTwice(ss, ss', ss'');
    StillAgreed(c, ss, ss'', key);
    SameTarget(c, ss, key, at, from);
    assert SameServer(ss[from], ss''[from]);
    GetAnswersOwner(c, ss'', from, key);
  }

  /** When exactly a POST of a key that was not stored can be read back: it must
      fit, and neither of the two ways may lead through a remote call that
      cannot carry it. */
  lemma ReadBackIff(c: Config, ss: Servers, at: string, key: string, body: seq<byte>, from: string)
    requires at in ss && from in ss && key != "" && Agreed(c, ss, key) && ValidStores(ss)
    requires Target(c, ss[at], key) in ss && Get(ss[Target(c, ss[at], key)].store, key) == NilValue
    ensures var owner := Target(c, ss[at], key);
            HandleGet(c, Served(c, ss, POST(at, key, body)), from, key) == Found(Bytes(body))
            <==> Fits(ss[owner].store, Bytes(body))
                 && (at == owner || (c.sum64(key) != 0 && body != []))
                 && (from == owner || body != [])
  {
    var ss' := Served(c, ss, POST(at, key, body));
    PostReachesOwner(c, ss, at, key, body);
    ServedKeeps(c, ss, POST(at, key, body));
    StillAgreed(c, ss, ss', key);
    SameTarget(c, ss, key, at, from);
    assert SameServer(ss[from], ss'[from]);
    GetAnswersOwner(c, ss', from, key);
  }
}
