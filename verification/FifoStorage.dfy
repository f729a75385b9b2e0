/** The first-in-first-out store: two maps, a slice of keys in the order of their
    writes, and a byte counter, proved against Eviction.FifoWrite. */
module FifoStorage {
  import opened Values
  import opened Eviction
  import CacheTheory

  /** The entries that an order slice and the two maps stand for. */
  ghost function EntriesOf(order: seq<string>, hashes: map<string, Hash>, storage: map<string, Value>): (q: seq<Entry>)
    requires forall k :: k in order ==> k in hashes && k in storage
    ensures |q| == |order|
    ensures forall i :: 0 <= i < |order| ==> q[i] == Entry(order[i], hashes[order[i]], storage[order[i]])
  {
    seq(|order|, i requires 0 <= i < |order| => Entry(order[i], hashes[order[i]], storage[order[i]]))
  }

  /** The order lists the keys of both maps, each once. */
  ghost predicate Lists(order: seq<string>, hashes: map<string, Hash>, storage: map<string, Value>) {
    && NoDuplicates(order)
    && (forall k :: k in order ==> k in hashes && k in storage)
    && (forall k :: k in hashes || k in storage ==> k in order)
  }

  lemma EntriesDistinct(order: seq<string>, hashes: map<string, Hash>, storage: map<string, Value>)
    requires Lists(order, hashes, storage)
    ensures DistinctKeys(EntriesOf(order, hashes, storage))
  {
  }

  lemma RemoveEntry(order: seq<string>, hashes: map<string, Hash>, storage: map<string, Value>, i: nat)
    requires Lists(order, hashes, storage) && i < |order|
    ensures var k, order' := order[i], RemoveAt(order, i); var q := EntriesOf(order, hashes, storage);
            && Lists(order', hashes - {k}, storage - {k})
            && EntriesOf(order', hashes - {k}, storage - {k}) == EntriesOf(order', hashes, storage) == RemoveAt(q, i)
            && Without(q, k) == RemoveAt(q, i) && Total(RemoveAt(q, i)) == Total(q) - storage[k].Len()
  {
    var q := EntriesOf(order, hashes, storage);
    EntriesDistinct(order, hashes, storage);
    IndexUnique(q, i);
    TotalSplit(q, i);
    RemoveListed(order, hashes, storage, i);
    EntriesOfRest(order, hashes, storage, i);
  }

  lemma RemoveFirst(order: seq<string>, hashes: map<string, Hash>, storage: map<string, Value>)
    requires Lists(order, hashes, storage) && |order| > 0
    ensures var k := order[0]; var q := EntriesOf(order, hashes, storage);
            && Lists(order[1..], hashes - {k}, storage - {k})
            && EntriesOf(order[1..], hashes - {k}, storage - {k}) == q[1..]
            && Total(q[1..]) == Total(q) - storage[k].Len()
  {
    RemoveEntry(order, hashes, storage, 0);
    assert RemoveAt(order, 0) == order[1..];
  }

  lemma RemoveListed(order: seq<string>, hashes: map<string, Hash>, storage: map<string, Value>, i: nat)
    requires Lists(order, hashes, storage) && i < |order|
    ensures Lists(RemoveAt(order, i), hashes - {order[i]}, storage - {order[i]})
  {
    var order' := RemoveAt(order, i);
    forall k
      ensures k in order' <==> k in order && k != order[i]
    {
      if k in order && k != order[i] {
        var j :| 0 <= j < |order| && order[j] == k;
        assert order'[if j < i then j else j - 1] == k;
      }
    }
  }

  lemma EntriesOfRest(order: seq<string>, hashes: map<string, Hash>, storage: map<string, Value>, i: nat)
    requires Lists(order, hashes, storage) && i < |order|
    requires Lists(RemoveAt(order, i), hashes - {order[i]}, storage - {order[i]})
    ensures var k, order' := order[i], RemoveAt(order, i);
            EntriesOf(order', hashes - {k}, storage - {k}) == EntriesOf(order', hashes, storage)
            == RemoveAt(EntriesOf(order, hashes, storage), i)
  {
  }

  /** A key at the end of the order, whatever the maps had for it before. */
  lemma AppendEntry(order: seq<string>, hashes: map<string, Hash>, storage: map<string, Value>, e: Entry)
    requires Lists(order, hashes - {e.key}, storage - {e.key})
    ensures var order', hashes', storage' := order + [e.key], hashes[e.key := e.hash], storage[e.key := e.value];
            var q := EntriesOf(order, hashes - {e.key}, storage - {e.key});
            && Lists(order', hashes', storage') && EntriesOf(order', hashes', storage') == q + [e]
            && Total(q + [e]) == Total(q) + e.value.Len()
  {
    var q := EntriesOf(order, hashes - {e.key}, storage - {e.key});
    TotalConcat(q, [e]);
    assert Total([e]) == e.value.Len();
    assert e.key !in order by {
      assert e.key !in hashes - {e.key};
    }
  }

  lemma AbsentEntry(order: seq<string>, hashes: map<string, Hash>, storage: map<string, Value>, key: string)
    requires Lists(order, hashes, storage) && key !in order
    ensures Without(EntriesOf(order, hashes, storage), key) == EntriesOf(order, hashes, storage)
  {
  }

  class Storage {
    var storage: map<string, Value>
    var hashes: map<string, Hash>
    var order: seq<string>
    var maxSize: int
    var curSize: int

    ghost function Contents(): seq<Entry>
      reads this
      requires Lists(order, hashes, storage)
    {
      EntriesOf(order, hashes, storage)
    }

    /** Order, values and hashes have the same keys, and the counter is exact. */
    ghost predicate Valid()
      reads this
    {
      Lists(order, hashes, storage) && curSize == Total(Contents())
    }

    constructor (maxSize: int)
      ensures Valid() && Contents() == CacheTheory.FifoRun(maxSize, []) && this.maxSize == maxSize
    {
      storage := map[];
      hashes := map[];
      order := [];
      this.maxSize := maxSize;
      curSize := 0;
    }

    method Read(key: string) returns (value: Value)
      requires Valid()
      ensures value == Lookup(Contents(), key)
    {
      if key in storage {
        return storage[key];
      }
      return NilValue;
    }

    lemma PlaceOf(key: string) returns (i: nat)
      requires Valid() && key in storage
      ensures i < |order| && order[i] == key
    {
      i :| 0 <= i < |order| && order[i] == key;
    }

    /** The search for a key in the order slice and its removal there. */
    method Unlink(key: string, ghost place: nat)
      requires NoDuplicates(order) && place < |order| && order[place] == key
      modifies this`order
      ensures order == RemoveAt(old(order), place)
    {
      var i := 0;
      while i < |order|
        invariant 0 <= i <= place && order == old(order)
      {
        if order[i] == key {
          order := order[..i] + order[i + 1..];
          return;
        }
        i := i + 1;
      }
    }

    method Write(key: string, hash: Hash, value: Value)
      requires Valid()
      modifies this
      ensures Valid() && maxSize == old(maxSize)
      ensures Contents() == FifoWrite(old(Contents()), maxSize, Entry(key, hash, value))
    {
      PutLast(key, hash, value);
      ghost var candidates := Contents();
      while curSize > maxSize && |order| > 0
        invariant Valid() && maxSize == old(maxSize)
        invariant Fit(Contents(), maxSize) == Fit(candidates, maxSize)
        decreases |order|
      {
        EvictOldest();
      }
    }

    /** Write up to the eviction loop. */
    method PutLast(key: string, hash: Hash, value: Value)
      requires Valid()
      modifies this
      ensures Valid() && maxSize == old(maxSize)
      ensures Contents() == Without(old(Contents()), key) + [Entry(key, hash, value)]
    {
      if key in storage {
        TakeOut(key);
      } else {
        AbsentEntry(order, hashes, storage, key);
        assert hashes - {key} == hashes && storage - {key} == storage;
      }
      AppendEntry(order, hashes, storage, Entry(key, hash, value));
      order := order + [key];
      storage := storage[key := value];
      hashes := hashes[key := hash];
      curSize := curSize + value.Len();
    }

    /** Takes a key that is about to be written again off the order and the counter. */
    method TakeOut(key: string)
      requires Valid() && key in storage
      modifies this`curSize, this`order
      ensures Lists(order, hashes - {key}, storage - {key})
      ensures EntriesOf(order, hashes - {key}, storage - {key}) == Without(old(Contents()), key)
      ensures curSize == Total(EntriesOf(order, hashes - {key}, storage - {key}))
    {
      ghost var i := PlaceOf(key);
      RemoveEntry(order, hashes, storage, i);
      curSize := curSize - storage[key].Len();
      Unlink(key, i);
    }

    /** One turn of the eviction loop. */
    method EvictOldest()
      requires Valid() && |order| > 0
      modifies this
      ensures Valid() && maxSize == old(maxSize) && |order| == |old(order)| - 1
      ensures Contents() == old(Contents())[1..]
    {
      RemoveFirst(order, hashes, storage);
      var oldest := order[0];
      order := order[1..];
      curSize := curSize - storage[oldest].Len();
      storage := storage - {oldest};
      hashes := hashes - {oldest};
    }

    method Delete(key: string)
      requires Valid()
      modifies this
      ensures Valid() && maxSize == old(maxSize)
      ensures Contents() == Without(old(Contents()), key)
    {
      if key in storage {
        ghost var i := PlaceOf(key);
        RemoveEntry(order, hashes, storage, i);
        curSize := curSize - storage[key].Len();
        storage := storage - {key};
        hashes := hashes - {key};
        Unlink(key, i);
      } else {
        AbsentEntry(order, hashes, storage, key);
      }
    }

    method ListKeys() returns (keys: map<string, Hash>)
      requires Valid()
      ensures forall k :: k in keys <==> HasKey(Contents(), k)
      ensures forall e :: e in Contents() ==> e.key in keys && keys[e.key] == e.hash
    {
      keys := hashes;
      forall k | k in keys
        ensures HasKey(Contents(), k)
      {
        var i :| 0 <= i < |order| && order[i] == k;
        assert Contents()[i].key == k;
      }
    }
  }
}
