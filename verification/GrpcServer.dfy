/** The gRPC server in front of whichever store a node runs. */
module GrpcServer {
  import opened Values
  import opened Grpc
  import CacheTheory
  import FifoStorage
  import LruStorage
  import NoEvictionStorage
  import opened Stores

  // ----- remote calls

  function RemoteRead(st: Store, key: string): Result<seq<Value>> {
    if key == "" then Error(InvalidArgument)
    else if Get(st, key) == NilValue then Error(NotFound)
    else Ok([Get(st, key)])
  }

  function RemoteWrite(st: Store, pair: KeyValuePair): (Store, Result<()>) {
    if Accepts(pair) then (Do(st, CacheTheory.Write(pair.key, pair.hash, Wire(pair.value))), Ok(()))
    else (st, Error(InvalidArgument))
  }

  /** How a remote read is answered. */
  lemma RemoteReadAnswers(st: Store, key: string)
    ensures RemoteRead(st, key) == Error(InvalidArgument) <==> key == ""
    ensures RemoteRead(st, key) == Error(NotFound) <==> key != "" && Get(st, key) == NilValue
    ensures RemoteRead(st, key).Ok? ==> RemoteRead(st, key) == Ok([Get(st, key)])
  {
  }

  /** What one remote call leaves, the next one finds: after a remote write, the
      store holds the pair, hash and all, and a remote read of the key answers its
      value, exactly if the pair was accepted and fits. A refused pair is an invalid
      argument, and changes nothing. */
  lemma RemoteRoundTrip(st: Store, pair: KeyValuePair)
    requires ValidStore(st)
    ensures var (st', r) := RemoteWrite(st, pair);
            && ValidStore(st') && (r.Ok? <==> pair.key != "" && pair.hash != 0 && pair.value.Len() > 0)
            && (r.Error? ==> st' == st && r.code == InvalidArgument)
            && (r.Ok? ==>
                  && (Holds(st', pair.key, Cell(pair.hash, pair.value)) <==> Fits(st, pair.value))
                  && RemoteRead(st', pair.key) == if Fits(st, pair.value) then Ok([pair.value]) else Error(NotFound))
  {
    AcceptsIff(pair);
    ValidAfter(st, CacheTheory.Write(pair.key, pair.hash, pair.value));
    GetAfterWrite(st, pair.key, pair.hash, pair.value);
  }

  // ----- the server object

  datatype Backend =
    | NoEvictionBackend(plain: NoEvictionStorage.Storage)
    | FifoBackend(fifo: FifoStorage.Storage)
    | LruBackend(lru: LruStorage.Storage)

  class Server {
    const storage: Backend

    ghost function Repr(): set<object>
      reads if storage.LruBackend? then {storage.lru, storage.lru.list} else {}
    {
      match storage
      case NoEvictionBackend(plain) => {plain}
      case FifoBackend(fifo) => {fifo}
      case LruBackend(lru) => lru.Repr()
    }

    ghost predicate Valid()
      reads Repr()
    {
      match storage
      case NoEvictionBackend(plain) => plain.Valid()
      case FifoBackend(fifo) => fifo.Valid()
      case LruBackend(lru) => lru.Valid()
    }

    /** The store behind the server, as a value. */
    ghost function Contents(): Store
      reads Repr()
      requires Valid()
    {
      match storage
      case NoEvictionBackend(plain) => Plain(plain.Cells())
      case FifoBackend(fifo) => Fifo(fifo.maxSize, fifo.Contents())
      case LruBackend(lru) => Lru(lru.maxSize, lru.State())
    }

    constructor (storage: Backend)
      ensures this.storage == storage
    {
      this.storage := storage;
    }

    method ReadStorage(key: string) returns (value: Value)
      requires Valid()
      modifies Repr()
      ensures Valid() && Repr() == old(Repr())
      ensures value == Get(old(Contents()), key) && Contents() == Do(old(Contents()), CacheTheory.Read(key))
    {
      match storage
      case NoEvictionBackend(plain) => value := plain.Read(key);
      case FifoBackend(fifo) => value := fifo.Read(key);
      case LruBackend(lru) => value := lru.Read(key);
    }

    method WriteStorage(key: string, hash: Hash, value: Value)
      requires Valid()
      modifies Repr()
      ensures Valid() && fresh(Repr() - old(Repr()))
      ensures Contents() == Do(old(Contents()), CacheTheory.Write(key, hash, value))
    {
      match storage
      case NoEvictionBackend(plain) => plain.Write(key, hash, value);
      case FifoBackend(fifo) => fifo.Write(key, hash, value);
      case LruBackend(lru) => lru.Write(key, hash, value);
    }

    method Read(key: string) returns (r: Result<seq<Value>>)
      requires Valid()
      modifies Repr()
      ensures Valid() && Repr() == old(Repr()) && r == RemoteRead(old(Contents()), key)
      ensures Contents() == if key == "" then old(Contents()) else Do(old(Contents()), CacheTheory.Read(key))
    {
      if key == "" {
        return Error(InvalidArgument);
      }
      var value := ReadStorage(key);
      if value == NilValue {
        return Error(NotFound);
      }
      return Ok([value]);
    }

    /** `pair` as it was sent. */
    method Write(pair: KeyValuePair) returns (r: Result<()>)
      requires Valid()
      modifies Repr()
      ensures Valid() && fresh(Repr() - old(Repr()))
      ensures (Contents(), r) == RemoteWrite(old(Contents()), pair)
    {
      var value := Wire(pair.value);
      if pair.key == "" || value == NilValue || pair.hash == 0 {
        return Error(InvalidArgument);
      }
      WriteStorage(pair.key, pair.hash, value);
      return Ok(());
    }
  }
}
