/** The least-recently-used store: a map of entries that know their place in a
    linked list, a byte counter, and a bounded queue of reads that another
    goroutine applies. The lock makes every method one atomic step. */
module LruStorage {
  import opened Values
  import opened Eviction
  import opened LinkedList
  import CacheTheory

  class LruEntry {
    const key: string
    var hash: Hash
    var value: Value
    var elem: Element?<LruEntry>

    constructor (key: string, hash: Hash, value: Value)
      ensures this.key == key && this.hash == hash && this.value == value
    {
      this.key := key;
      this.hash := hash;
      this.value := value;
      elem := null;
    }
  }

  type LruElements = seq<Element<LruEntry>>

  type Entries = map<string, LruEntry>

  /** The list's elements hold the map's entries, in the order of `contents`:
      each element one entry, and, there being as many, each entry one element. */
  ghost predicate Listed(storage: Entries, elems: LruElements, contents: seq<Entry>) {
    && |contents| == |elems| == |storage|
    && forall i :: 0 <= i < |contents| ==>
         && contents[i].key in storage && storage[contents[i].key].key == contents[i].key
         && elems[i].value == Some(storage[contents[i].key])
  }

  /** An entry refers back to its element and has the contents `e`. */
  ghost predicate Synced(entry: LruEntry, el: Element<LruEntry>, e: Entry)
    reads entry
  {
    entry.elem == el && entry.hash == e.hash && entry.value == e.value
  }

  ghost predicate AllSynced(storage: Entries, elems: LruElements, contents: seq<Entry>)
    requires Listed(storage, elems, contents)
    reads storage.Values
  {
    forall i :: 0 <= i < |contents| ==> Synced(storage[contents[i].key], elems[i], contents[i])
  }

  // ----- lists and maps as values

  lemma KeysDistinct(storage: Entries, elems: LruElements, contents: seq<Entry>)
    requires Listed(storage, elems, contents) && AllSynced(storage, elems, contents) && NoDuplicates(elems)
    ensures DistinctKeys(contents)
  {
    forall i, j | 0 <= i < j < |contents|
      ensures contents[i].key != contents[j].key
    {
      assert Synced(storage[contents[i].key], elems[i], contents[i]);
      assert Synced(storage[contents[j].key], elems[j], contents[j]);
    }
  }

  /** No entry of the map is missing in the list. */
  lemma FindKey(storage: Entries, elems: LruElements, contents: seq<Entry>, key: string)
    requires Listed(storage, elems, contents) && DistinctKeys(contents) && key in storage
    ensures HasKey(contents, key)
  {
    if !HasKey(contents, key) {
      var keys := seq(|contents|, i requires 0 <= i < |contents| => contents[i].key);
      assert forall i :: 0 <= i < |contents| ==> keys[i] == contents[i].key;
      DistinctCardinality(keys);
      SubsetCardinality(Elements(keys) + {key}, storage.Keys);
    }
  }

  lemma ListedWithout(storage: Entries, elems: LruElements, contents: seq<Entry>, i: nat)
    requires Listed(storage, elems, contents) && DistinctKeys(contents) && i < |contents|
    ensures Listed(storage - {contents[i].key}, RemoveAt(elems, i), RemoveAt(contents, i))
    ensures AllSynced(storage, elems, contents) ==>
              AllSynced(storage - {contents[i].key}, RemoveAt(elems, i), RemoveAt(contents, i))
  {
    assert (storage - {contents[i].key}).Keys == storage.Keys - {contents[i].key};
  }

  lemma ListedRefreshed(storage: Entries, elems: LruElements, contents: seq<Entry>, i: nat)
    requires Listed(storage, elems, contents) && i < |contents|
    ensures Listed(storage, [elems[i]] + RemoveAt(elems, i), [contents[i]] + RemoveAt(contents, i))
    ensures AllSynced(storage, elems, contents) ==>
              AllSynced(storage, [elems[i]] + RemoveAt(elems, i), [contents[i]] + RemoveAt(contents, i))
  {
  }

  lemma ListedInserted(storage: Entries, elems: LruElements, contents: seq<Entry>,
      entry: LruEntry, el: Element<LruEntry>, e: Entry)
    requires Listed(storage, elems, contents) && e.key !in storage && entry.key == e.key && el.value == Some(entry)
    ensures Listed(storage[e.key := entry], [el] + elems, [e] + contents)
    ensures AllSynced(storage, elems, contents) && Synced(entry, el, e) ==>
              AllSynced(storage[e.key := entry], [el] + elems, [e] + contents)
  {
    var storage', elems', contents' := storage[e.key := entry], [el] + elems, [e] + contents;
    assert storage'.Keys == storage.Keys + {e.key};
    assert forall i :: 0 < i < |contents'| ==> contents'[i] == contents[i - 1] && elems'[i] == elems[i - 1];
  }

  class Storage {
    var storage: Entries
    const list: List<LruEntry>
    const maxSize: int
    var curSize: int
    var promoCh: seq<string>
    ghost var contents: seq<Entry>  // front to back

    ghost function Repr(): set<object>
      reads `storage, list
    {
      {this, list, list.root} + (set e | e in list.elems) + (set e | e in storage.Values)
    }

    /** The list is well formed; its elements and the map's entries are in
        one-to-one correspondence. */
    ghost predicate Linkage()
      reads `storage, `contents, list, list.root, list.elems, storage.Values
    {
      list.Valid() && Listed(storage, list.elems, contents) && AllSynced(storage, list.elems, contents)
    }

    /** And the counter is exact. */
    ghost predicate Valid()
      reads this, list, list.root, list.elems, storage.Values
    {
      Linkage() && curSize == Total(contents) && |promoCh| <= CacheTheory.QUEUE
    }

    ghost function State(): CacheTheory.Lru
      reads this
    {
      CacheTheory.Lru(contents, promoCh)
    }

    constructor (maxSize: int)
      ensures Valid() && fresh(Repr()) && State() == CacheTheory.LruRun(maxSize, []) && this.maxSize == maxSize
    {
      storage := map[];
      list := new List();
      this.maxSize := maxSize;
      curSize := 0;
      promoCh := [];
      contents := [];
    }

    /** Where a stored key's entry is. */
    lemma PlaceOf(key: string) returns (i: nat)
      requires Linkage() && key in storage
      ensures i < |contents| && contents[i].key == key && i == IndexOf(contents, key)
      ensures i < |list.elems| && storage[key].elem == list.elems[i]
      ensures contents[i] == Entry(key, storage[key].hash, storage[key].value)
    {
      KeysDistinct(storage, list.elems, contents);
      FindKey(storage, list.elems, contents, key);
      i := IndexOf(contents, key);
      assert Synced(storage[contents[i].key], list.elems[i], contents[i]);
    }

    lemma Absent(key: string)
      requires Linkage() && key !in storage
      ensures IndexOf(contents, key) == |contents| && Without(contents, key) == contents && !HasKey(contents, key)
    {
    }

    /** A hit is queued for promotion unless the queue is full. */
    method Read(key: string) returns (value: Value)
      requires Valid()
      modifies this`promoCh
      ensures Valid() && value == Lookup(contents, key)
      ensures State() == CacheTheory.LruStep(old(State()), maxSize, CacheTheory.Read(key))
      ensures promoCh == if key in storage && |old(promoCh)| < 512 then old(promoCh) + [key] else old(promoCh)
    {
      if key !in storage {
        Absent(key);
        return NilValue;
      }
      ghost var i := PlaceOf(key);
      value := storage[key].value;
      if |promoCh| < CacheTheory.QUEUE {
        promoCh := promoCh + [key];
      }
    }

    /** list.MoveToFront on a stored entry's element. */
    method Refresh(entry: LruEntry, ghost i: nat)
      requires Linkage() && i < |contents| && contents[i].key in storage && storage[contents[i].key] == entry
      modifies this`contents, list, list.root, list.elems
      ensures Linkage() && Repr() == old(Repr())
      ensures contents == [old(contents)[i]] + RemoveAt(old(contents), i)
    {
      assert Synced(entry, list.elems[i], contents[i]);
      list.MoveToFront(entry.elem, i);
      ListedRefreshed(storage, old(list.elems), contents, i);
      contents := [contents[i]] + RemoveAt(contents, i);
    }

    /** Takes a stored entry and its bytes out. */
    method TakeOut(entry: LruEntry, ghost i: nat)
      requires Valid() && i < |contents| && contents[i].key in storage && storage[contents[i].key] == entry
      modifies this`contents, this`storage, this`curSize, list, list.root, list.elems
      ensures Valid() && Repr() <= old(Repr())
      ensures contents == RemoveAt(old(contents), i)
    {
      assert Synced(entry, list.elems[i], contents[i]);
      TotalSplit(contents, i);
      curSize := curSize - entry.value.Len();
      Drop(entry, i);
    }

    /** Takes a stored entry out of the list and the map. */
    method Drop(entry: LruEntry, ghost i: nat)
      requires Linkage() && i < |contents| && contents[i].key in storage && storage[contents[i].key] == entry
      modifies this`contents, this`storage, list, list.root, list.elems
      ensures Linkage() && Repr() <= old(Repr())
      ensures contents == RemoveAt(old(contents), i)
    {
      assert Synced(entry, list.elems[i], contents[i]);
      KeysDistinct(storage, list.elems, contents);
      list.Remove(entry.elem, i);
      ListedWithout(storage, old(list.elems), contents, i);
      storage := storage - {entry.key};
      contents := RemoveAt(contents, i);
    }

    /** A new entry and its element, at the front of the list, but not in the map yet. */
    method NewEntry(key: string, hash: Hash, value: Value) returns (entry: LruEntry, elem: Element<LruEntry>)
      requires Linkage()
      modifies list, list.root, list.elems
      ensures fresh(entry) && fresh(elem) && entry.key == key && elem.value == Some(entry)
      ensures Synced(entry, elem, Entry(key, hash, value))
      ensures list.Valid() && list.elems == [elem] + old(list.elems)
      ensures AllSynced(storage, old(list.elems), contents)
    {
      entry := new LruEntry(key, hash, value);
      elem := list.PushFront(entry);
      entry.elem := elem;
    }

    /** Puts a new entry at the front. */
    method Insert(key: string, hash: Hash, value: Value)
      requires Linkage() && key !in storage
      modifies this`contents, this`storage, list, list.root, list.elems
      ensures Linkage() && fresh(Repr() - old(Repr()))
      ensures contents == [Entry(key, hash, value)] + old(contents)
    {
      var entry, elem := NewEntry(key, hash, value);
      ListedInserted(storage, old(list.elems), contents, entry, elem, Entry(key, hash, value));
      storage := storage[key := entry];
      contents := [Entry(key, hash, value)] + contents;
    }

    /** Gives a stored entry a new hash and value, in place. */
    method Overwrite(entry: LruEntry, hash: Hash, value: Value, ghost i: nat)
      requires Linkage() && i < |contents| && contents[i].key in storage && storage[contents[i].key] == entry
      modifies this`contents, entry`hash, entry`value
      ensures Linkage()
      ensures contents == old(contents)[i := Entry(old(contents)[i].key, hash, value)]
    {
      KeysDistinct(storage, list.elems, contents);
      assert Synced(entry, list.elems[i], contents[i]);
      entry.hash := hash;
      entry.value := value;
      contents := contents[i := Entry(contents[i].key, hash, value)];
      forall j | 0 <= j < |contents|
        ensures Synced(storage[contents[j].key], list.elems[j], contents[j])
      {
        assert old(Synced(storage[contents[j].key], list.elems[j], contents[j]));
      }
    }

    method Write(key: string, hash: Hash, value: Value)
      requires Valid()
      modifies Repr()
      ensures Valid() && fresh(Repr() - old(Repr()))
      ensures State() == CacheTheory.LruStep(old(State()), maxSize, CacheTheory.Write(key, hash, value))
    {
      PutFirst(key, hash, value);
      curSize := curSize + value.Len();
      ghost var candidates := contents;
      while curSize > maxSize && list.len > 0
        invariant Valid() && fresh(Repr() - old(Repr())) && promoCh == old(promoCh)
        invariant EvictBack(contents, maxSize) == EvictBack(candidates, maxSize)
        decreases |contents|
      {
        EvictLeastRecent();
      }
    }

    /** Write up to where the counter takes in the new value. */
    method PutFirst(key: string, hash: Hash, value: Value)
      requires Valid()
      modifies Repr()
      ensures Linkage() && fresh(Repr() - old(Repr())) && promoCh == old(promoCh)
      ensures contents == [Entry(key, hash, value)] + Without(old(contents), key)
      ensures curSize == Total(contents) - value.Len()
    {
      if key in storage {
        PutAgain(key, hash, value);
      } else {
        Absent(key);
        Insert(key, hash, value);
      }
    }

    method PutAgain(key: string, hash: Hash, value: Value)
      requires Valid() && key in storage
      modifies this`curSize, this`contents, storage[key], list, list.root, list.elems
      ensures Linkage() && Repr() == old(Repr())
      ensures contents == [Entry(key, hash, value)] + Without(old(contents), key)
      ensures curSize == Total(contents) - value.Len()
    {
      ghost var i := PlaceOf(key);
      TotalSplit(contents, i);
      var entry := storage[key];
      curSize := curSize - entry.value.Len();
      Overwrite(entry, hash, value, i);
      Refresh(entry, i);
      assert RemoveAt(old(contents)[i := contents[0]], i) == RemoveAt(old(contents), i);
    }

    /** One turn of the eviction loop. */
    method EvictLeastRecent()
      requires Valid() && list.len > 0
      modifies this`contents, this`storage, this`curSize, list, list.root, list.elems
      ensures Valid() && Repr() <= old(Repr()) && promoCh == old(promoCh)
      ensures contents == old(contents)[..|old(contents)| - 1]
    {
      var back := list.Back();
      TakeOut(back.value.value, |contents| - 1);
    }

    method Delete(key: string)
      requires Valid()
      modifies this`contents, this`storage, this`curSize, list, list.root, list.elems
      ensures Valid() && Repr() <= old(Repr())
      ensures State() == CacheTheory.LruStep(old(State()), maxSize, CacheTheory.Delete(key))
    {
      if key in storage {
        ghost var i := PlaceOf(key);
        TakeOut(storage[key], i);
      } else {
        Absent(key);
      }
    }

    /** The promoter's loop body; it waits while the queue is empty. */
    method PromoteNext()
      requires Valid() && promoCh != []
      modifies Repr()
      ensures Valid() && Repr() == old(Repr())
      ensures State() == CacheTheory.LruStep(old(State()), maxSize, CacheTheory.Promoter)
    {
      var key := promoCh[0];
      promoCh := promoCh[1..];
      Promoted(key);
    }

    method Promoted(key: string)
      requires Valid()
      modifies this`contents, list, list.root, list.elems
      ensures Valid() && Repr() == old(Repr())
      ensures contents == Promote(old(contents), key)
    {
      if key in storage {
        ghost var i := PlaceOf(key);
        PromoteTotal(contents, key);
        Refresh(storage[key], i);
      } else {
        Absent(key);
      }
    }

    /** A fresh map, filled by walking the list. */
    method ListKeys() returns (keys: map<string, Hash>)
      requires Valid()
      ensures forall k :: k in keys ==> HasKey(contents, k)
      ensures forall e :: e in contents ==> e.key in keys && keys[e.key] == e.hash
    {
      KeysDistinct(storage, list.elems, contents);
      keys := map[];
      ghost var c, i := [list.root] + list.elems + [list.root], 0;
      assert c[0].next == c[1];
      var el := list.root.next;
      while el != list.root
        invariant 0 <= i <= |contents| && el == c[i + 1]
        invariant forall j :: 0 <= j < i ==> contents[j].key in keys && keys[contents[j].key] == contents[j].hash
        invariant forall k :: k in keys ==> HasKey(contents, k)
        decreases |contents| - i
      {
        assert i < |contents| && c[i + 1] == list.elems[i];
        var entry := el.value.value;
        assert Synced(entry, list.elems[i], contents[i]);
        keys := keys[entry.key := entry.hash];
        assert c[i + 1].next == c[i + 2];
        el := el.next;
        i := i + 1;
      }
    }
  }
}
