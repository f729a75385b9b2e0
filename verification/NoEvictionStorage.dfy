/** The store that keeps everything: two maps with the same keys. */
module NoEvictionStorage {
  import opened Values
  import CacheTheory

  class Storage {
    var storage: map<string, Value>
    var hashes: map<string, Hash>

    ghost predicate Valid()
      reads this
    {
      storage.Keys == hashes.Keys
    }

    ghost function Cells(): map<string, Cell>
      reads this
      requires Valid()
    {
      map k | k in storage :: Cell(hashes[k], storage[k])
    }

    constructor ()
      ensures Valid() && Cells() == CacheTheory.MapRun([])
    {
      storage := map[];
      hashes := map[];
    }

    method Read(key: string) returns (value: Value)
      requires Valid()
      ensures value == if key in Cells() then Cells()[key].value else NilValue
    {
      if key in storage {
        return storage[key];
      } else {
        return NilValue;
      }
    }

    method Write(key: string, hash: Hash, value: Value)
      requires Valid()
      modifies this
      ensures Valid() && Cells() == CacheTheory.MapStep(old(Cells()), CacheTheory.Write(key, hash, value))
    {
      storage := storage[key := value];
      hashes := hashes[key := hash];
    }

    method Delete(key: string)
      requires Valid()
      modifies this
      ensures Valid() && Cells() == CacheTheory.MapStep(old(Cells()), CacheTheory.Delete(key))
    {
      storage := storage - {key};
      hashes := hashes - {key};
    }

    method ListKeys() returns (keys: map<string, Hash>)
      requires Valid()
      ensures keys.Keys == Cells().Keys && forall k :: k in keys ==> keys[k] == Cells()[k].hash
    {
      return hashes;
    }
  }
}
