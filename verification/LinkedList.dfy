/** The doubly linked list of Go's container/list, as far as the LRU store uses
    it: a ring of elements closed by a sentinel. */
module LinkedList {
  import opened Values
  import opened Eviction

  datatype Option<T> = None | Some(value: T)

  class Element<T> {
    var next: Element?<T>
    var prev: Element?<T>
    const value: Option<T>

    constructor (value: Option<T>)
      ensures this.value == value
    {
      this.value := value;
      next, prev := null, null;
    }
  }

  /** Neighbours point at each other. */
  ghost predicate Linked<T>(c: seq<Element<T>>)
    reads c
  {
    && (forall i {:trigger c[i].next} :: 0 <= i < |c| - 1 ==> c[i].next == c[i + 1])
    && (forall i {:trigger c[i].prev} :: 0 < i < |c| ==> c[i].prev == c[i - 1])
  }

  lemma RemoveAtFacts<T>(s: seq<T>, k: nat)
    requires NoDuplicates(s) && k < |s|
    ensures NoDuplicates(RemoveAt(s, k))
    ensures forall x :: x in RemoveAt(s, k) <==> x in s && x != s[k]
  {
    forall x | x in s && x != s[k]
      ensures x in RemoveAt(s, k)
    {
      var j :| 0 <= j < |s| && s[j] == x;
      assert RemoveAt(s, k)[if j < k then j else j - 1] == x;
    }
  }

  class List<T> {
    const root: Element<T>
    var len: nat
    ghost var elems: seq<Element<T>>  // front to back

    ghost function Repr(): set<object>
      reads this
    {
      {this, root} + set e | e in elems
    }

    ghost predicate Valid()
      reads this, root, elems
    {
      && len == |elems|
      && root !in elems && NoDuplicates(elems)
      && (forall i :: 0 <= i < |elems| ==> elems[i].value.Some?)
      && Linked([root] + elems + [root])
    }

    constructor ()
      ensures Valid() && fresh(Repr()) && elems == []
    {
      root := new Element(None);
      len := 0;
      elems := [];
      new;
      root.next := root;
      root.prev := root;
    }

    method Detach(e: Element<T>, ghost k: nat)
      requires Valid() && k < |elems| && elems[k] == e
      modifies this, root, elems
      ensures Valid() && elems == RemoveAt(old(elems), k)
      ensures e !in elems && forall x :: x in elems <==> x in old(elems) && x != e
    {
      ghost var c := [root] + elems + [root];
      assert c[k + 1] == e;
      assert e.prev == c[k] && e.next == c[k + 2];
      e.prev.next := e.next;
      e.next.prev := e.prev;
      ghost var c' := RemoveAt(c, k + 1);
      forall i | 0 <= i < |c'| - 1
        ensures c'[i].next == c'[i + 1] && c'[i + 1].prev == c'[i]
      {
        assert i < k ==> c[i].next == c[i + 1] && c[i + 1].prev == c[i];
        assert i > k ==> c[i + 1].next == c[i + 2] && c[i + 2].prev == c[i + 1];
      }
      RemoveAtFacts(elems, k);
      len := len - 1;
      elems := RemoveAt(elems, k);
      assert [root] + elems + [root] == c';
    }

    method AttachFront(e: Element<T>)
      requires Valid() && e !in elems && e != root && e.value.Some?
      modifies this, root, elems, e
      ensures Valid() && elems == [e] + old(elems)
    {
      ghost var c := [root] + elems + [root];
      assert c[0].next == c[1];
      e.prev := root;
      e.next := root.next;
      e.prev.next := e;
      e.next.prev := e;
      len := len + 1;
      elems := [e] + elems;
      ghost var c' := [root] + elems + [root];
      assert c'[0] == root && c'[1] == e && forall i :: 1 < i < |c'| ==> c'[i] == c[i - 1];
    }

    method PushFront(value: T) returns (e: Element<T>)
      requires Valid()
      modifies this, root, elems
      ensures Valid() && fresh(e) && e.value == Some(value) && elems == [e] + old(elems)
    {
      e := new Element(Some(value));
      AttachFront(e);
    }

    method MoveToFront(e: Element<T>, ghost k: nat)
      requires Valid() && k < |elems| && elems[k] == e
      modifies this, root, elems
      ensures Valid() && elems == [e] + RemoveAt(old(elems), k)
      ensures forall x :: x in elems <==> x in old(elems)
    {
      ghost var c := [root] + elems + [root];
      assert c[0].next == c[1] == elems[0];
      if root.next == e {
        assert elems == [e] + RemoveAt(elems, 0);
        return;
      }
      Detach(e, k);
      AttachFront(e);
    }

    method Remove(e: Element<T>, ghost k: nat)
      requires Valid() && k < |elems| && elems[k] == e
      modifies this, root, elems
      ensures Valid() && elems == RemoveAt(old(elems), k)
    {
      Detach(e, k);
      e.next := null;
      e.prev := null;
    }

    /** The last element; the list must have one. */
    method Back() returns (e: Element<T>)
      requires Valid() && len > 0
      ensures e == elems[|elems| - 1]
    {
      ghost var c := [root] + elems + [root];
      assert c[|elems| + 1].prev == c[|elems|];
      e := root.prev;
    }
  }
}
