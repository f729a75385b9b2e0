/** The three stores behind one interface. */
module Stores {
  import opened Values
  import opened Eviction
  import CacheTheory

  datatype Store =
    | Plain(cells: map<string, Cell>)
    | Fifo(max: int, queue: seq<Entry>)
    | Lru(max: int, state: CacheTheory.Lru)

  ghost predicate ValidStore(st: Store) {
    match st
    case Plain(_) => true
    case Fifo(_, queue) => DistinctKeys(queue)
    case Lru(_, state) => DistinctKeys(state.list)
  }

  function Get(st: Store, key: string): Value {
    match st
    case Plain(cells) => if key in cells then cells[key].value else NilValue
    case Fifo(_, queue) => Lookup(queue, key)
    case Lru(_, state) => Lookup(state.list, key)
  }

  /** The store has this cell under the key. */
  predicate Holds(st: Store, key: string, cell: Cell) {
    match st
    case Plain(cells) => key in cells && cells[key] == cell
    case Fifo(_, queue) => Entry(key, cell.hash, cell.value) in queue
    case Lru(_, state) => Entry(key, cell.hash, cell.value) in state.list
  }

  /** What happens to a store; reading may queue a promotion. */
  function Do(st: Store, op: CacheTheory.Op): Store {
    match st
    case Plain(cells) => Plain(CacheTheory.MapStep(cells, op))
    case Fifo(max, queue) => Fifo(max, CacheTheory.FifoStep(queue, max, op))
    case Lru(max, state) => Lru(max, CacheTheory.LruStep(state, max, op))
  }

  /** The store keeps the value when it is written. */
  predicate Fits(st: Store, value: Value) {
    st.Plain? || value.Len() <= st.max
  }

  lemma ValidAfter(st: Store, op: CacheTheory.Op)
    requires ValidStore(st)
    ensures ValidStore(Do(st, op))
  {
    match st
    case Plain(_) =>
    case Fifo(max, queue) =>
      match op {
        case Write(key, hash, value) => var n := EvictionIsMinimal(queue, max, Entry(key, hash, value));
        case Delete(key) => WithoutFacts(queue, key);
        case Read(_) =>
        case Promoter =>
      }
    case Lru(max, state) => CacheTheory.LruStepDistinct(state, max, op);
  }

  lemma GetAfterWrite(st: Store, key: string, hash: Hash, value: Value)
    requires ValidStore(st)
    ensures var st' := Do(st, CacheTheory.Write(key, hash, value));
            && Get(st', key) == (if Fits(st, value) then value else NilValue)
            && (Holds(st', key, Cell(hash, value)) <==> Fits(st, value))
  {
    match st
    case Plain(_) =>
    case Fifo(max, queue) => FifoHoldsIff(queue, max, Entry(key, hash, value));
    case Lru(max, state) => LruHoldsIff(state.list, max, Entry(key, hash, value));
  }

  lemma FifoHoldsIff(queue: seq<Entry>, max: int, e: Entry)
    requires DistinctKeys(queue)
    ensures e in FifoWrite(queue, max, e) <==> e.value.Len() <= max
    ensures Lookup(FifoWrite(queue, max, e), e.key) == if e.value.Len() <= max then e.value else NilValue
  {
    ReadableIffFits(queue, max, e);
    var n := EvictionIsMinimal(queue, max, e);
    var c := Without(queue, e.key) + [e];
    if n < |c| {
      assert c[n..][|c| - 1 - n] == e;
    } else {
      assert c[n..] == [];
    }
  }

  lemma LruHoldsIff(l: seq<Entry>, max: int, e: Entry)
    requires DistinctKeys(l)
    ensures e in LruWrite(l, max, e) <==> e.value.Len() <= max
    ensures Lookup(LruWrite(l, max, e), e.key) == if e.value.Len() <= max then e.value else NilValue
  {
    CacheTheory.LruReadableIffFits(l, max, e);
    var n := CacheTheory.LruWriteFacts(l, max, e);
    if n > 0 {
      assert ([e] + Without(l, e.key))[..n][0] == e;
    }
  }

  /** A promotion changes no value. */
  lemma PromoterKeeps(st: Store, key: string)
    requires ValidStore(st)
    ensures Get(Do(st, CacheTheory.Promoter), key) == Get(st, key)
  {
    if st.Lru? && st.state.queue != [] {
      CacheTheory.PromoteFacts(st.state.list, st.state.queue[0]);
      SameEntriesSameValue(st.state.list, Promote(st.state.list, st.state.queue[0]), key);
    }
  }

  lemma SameEntriesSameValue(l: seq<Entry>, l': seq<Entry>, key: string)
    requires DistinctKeys(l) && DistinctKeys(l') && forall e :: e in l' <==> e in l
    ensures Lookup(l', key) == Lookup(l, key)
  {
    var i, j := IndexOf(l, key), IndexOf(l', key);
    if i < |l| {
      assert l[i] in l';
    }
    if j < |l'| {
      assert l'[j] in l;
    }
  }
}
