/** Exactly when the LRU store evicts an entry that an exact LRU cache, which
    applies every read at once, would have kept. */
module LruLoss {
  import opened Eviction
  import opened CacheTheory

  // ----- what a write keeps

  lemma PrefixTotal(l: seq<Entry>, i: nat, j: nat)
    requires i <= j <= |l|
    ensures Total(l[..i]) <= Total(l[..j])
  {
    TotalConcat(l[..i], l[i..j]);
    assert l[..j] == l[..i] + l[i..j];
  }

  /** Eviction keeps an entry exactly if it fits together with all before it. */
  lemma {:induction false} KeptIffFits(l: seq<Entry>, max: int, p: nat)
    requires p < |l|
    ensures p < |EvictBack(l, max)| <==> Total(l[..p + 1]) <= max
  {
    PrefixTotal(l, p + 1, |l|);
    assert l[..|l|] == l;
    if Total(l) > max && p < |l| - 1 {
      KeptIffFits(l[..|l| - 1], max, p);
      assert l[..|l| - 1][..p + 1] == l[..p + 1];
    } else if Total(l) > max {
      var n := EvictBackIsPrefix(l[..|l| - 1], max);
    }
  }

  /** How many bytes must fit for the entry of `key` to survive a write of `e`. */
  function Needed(l: seq<Entry>, e: Entry, key: string): nat {
    var rest := Without(l, e.key);
    var j := IndexOf(rest, key);
    e.value.Len() + if j < |rest| then Total(rest[..j + 1]) else 0
  }

  lemma SurvivesIff(l: seq<Entry>, max: int, e: Entry, key: string)
    requires DistinctKeys(l) && key != e.key
    ensures HasKey(LruWrite(l, max, e), key) <==> HasKey(l, key) && Needed(l, e, key) <= max
  {
    var n := LruWriteFacts(l, max, e);
    WithoutFacts(l, e.key);
    if HasKey(l, key) {
      StillThere(l, e.key, key);
      KeptInWrite(l, max, e, key, n);
    }
  }

  lemma KeptInWrite(l: seq<Entry>, max: int, e: Entry, key: string, n: nat)
    requires DistinctKeys(l) && HasKey(Without(l, e.key), key) && key != e.key
    requires var c := [e] + Without(l, e.key); n <= |c| && LruWrite(l, max, e) == c[..n] && DistinctKeys(c)
    ensures HasKey(LruWrite(l, max, e), key) <==> Needed(l, e, key) <= max
  {
    var rest := Without(l, e.key);
    var c, j := [e] + rest, IndexOf(rest, key);
    IndexUnique(c, j + 1);
    KeptIffFits(c, max, j + 1);
    assert c[..j + 2] == [e] + rest[..j + 1];
    if j + 1 < n {
      assert c[..n][j + 1].key == key;
    }
    assert HasKey(c[..n], key) ==> j + 1 < n;
  }

  lemma StillThere(l: seq<Entry>, gone: string, key: string)
    requires DistinctKeys(l) && HasKey(l, key) && key != gone
    ensures HasKey(Without(l, gone), key)
  {
    WithoutFacts(l, gone);
    var i :| 0 <= i < |l| && l[i].key == key;
    HasKeyIff(Without(l, gone), l[i]);
  }

  /** In front, an entry needs but its own bytes and those written. */
  lemma NeededInFront(l: seq<Entry>, e: Entry, key: string)
    requires DistinctKeys(l) && HasKey(l, key) && key != e.key
    ensures DistinctKeys(Promote(l, key)) && HasKey(Promote(l, key), key)
    ensures Needed(Promote(l, key), e, key) == e.value.Len() + l[IndexOf(l, key)].value.Len()
  {
    var i, l' := IndexOf(l, key), Promote(l, key);
    PromoteFacts(l, key);
    assert l'[0] == l[i];
    assert Without(l', e.key)[0] == l[i];
    assert Without(l', e.key)[..1] == [l[i]] && Total([l[i]]) == l[i].value.Len();
  }

  /** A read that is applied before the write `e` saves its entry, and one that
      is not loses it, exactly if the entry fits beside `e`, but not together
      with all that is in front of it. */
  lemma ReadLostIff(l: seq<Entry>, max: int, e: Entry, i: nat)
    requires DistinctKeys(l) && i < |l| && l[i].key != e.key
    ensures !HasKey(LruWrite(l, max, e), l[i].key) && HasKey(LruWrite(Promote(l, l[i].key), max, e), l[i].key)
            <==> e.value.Len() + l[i].value.Len() <= max < Needed(l, e, l[i].key)
  {
    IndexUnique(l, i);
    NeededInFront(l, e, l[i].key);
    SurvivesIff(l, max, e, l[i].key);
    SurvivesIff(Promote(l, l[i].key), max, e, l[i].key);
  }

  // ----- in runs

  /** `ops` and then `n` times `op`. */
  predicate Then(ops: seq<Op>, op: Op, n: nat, ops': seq<Op>) {
    |ops'| == |ops| + n && ops'[..|ops|] == ops && forall i :: |ops| <= i < |ops'| ==> ops'[i] == op
  }

  lemma Front(ops: seq<Op>, op: Op, n: nat, ops': seq<Op>)
    requires Then(ops, op, n, ops') && n > 0
    ensures Then(ops, op, n - 1, ops'[..|ops'| - 1]) && ops'[|ops'| - 1] == op
  {
    assert ops'[..|ops'| - 1][..|ops|] == ops'[..|ops|];
  }

  /** The promoter works off the queue; for an exact cache, nothing happens. */
  lemma {:induction false} QueueDrains(max: int, ops: seq<Op>, n: nat, ops': seq<Op>)
    requires Then(ops, Promoter, n, ops') && n <= |LruRun(max, ops).queue|
    ensures var st, st' := LruRun(max, ops), LruRun(max, ops');
            st'.queue == st.queue[n..] && Drained(st'.list, st'.queue) == Drained(st.list, st.queue)
    ensures ExactRun(max, ops') == ExactRun(max, ops)
    decreases n
  {
    if n == 0 {
      assert ops' == ops;
    } else {
      var front := ops'[..|ops'| - 1];
      Front(ops, Promoter, n, ops');
      QueueDrains(max, ops, n - 1, front);
      DrainedFront(LruRun(max, front).list, LruRun(max, front).queue);
    }
  }

  /** The store has lost an entry that an exact LRU cache still has. */
  ghost predicate Lost(max: int, ops: seq<Op>, key: string) {
    !HasKey(LruRun(max, ops).list, key) && HasKey(ExactRun(max, ops), key)
  }

  lemma {:induction false} ExactDistinct(max: int, ops: seq<Op>)
    ensures DistinctKeys(ExactRun(max, ops))
  {
    if ops != [] {
      var l := ExactRun(max, ops[..|ops| - 1]);
      ExactDistinct(max, ops[..|ops| - 1]);
      match ops[|ops| - 1]
      case Write(key, hash, value) => var n := LruWriteFacts(l, max, Entry(key, hash, value));
      case Delete(key) => WithoutFacts(l, key);
      case Read(key) => PromoteFacts(l, key);
      case Promoter =>
    }
  }

  /** A write after any run at all: when exactly it loses the entry of a key that
      an exact LRU cache keeps. */
  lemma WriteLosesIff(max: int, ops: seq<Op>, e: Entry, key: string)
    requires key != e.key
    ensures var l, exact := LruRun(max, ops).list, ExactRun(max, ops);
            Lost(max, ops + [Write(e.key, e.hash, e.value)], key)
            <==> HasKey(exact, key) && Needed(exact, e, key) <= max && (HasKey(l, key) ==> max < Needed(l, e, key))
  {
    LruDistinct(max, ops);
    ExactDistinct(max, ops);
    OneMore(max, ops, Write(e.key, e.hash, e.value));
    SurvivesIff(LruRun(max, ops).list, max, e, key);
    SurvivesIff(ExactRun(max, ops), max, e, key);
  }

  /** While the promoter keeps up, whatever is queued: a write loses an entry that
      an exact LRU cache keeps, exactly if the entry fits behind what is in front
      of it in the exact order, but not behind what is in front of it in the list. */
  lemma LostIff(max: int, ops: seq<Op>, e: Entry, key: string)
    requires KeepsUp(max, ops) && HasKey(LruRun(max, ops).list, key) && key != e.key
    ensures Lost(max, ops + [Write(e.key, e.hash, e.value)], key)
            <==> Needed(ExactRun(max, ops), e, key) <= max < Needed(LruRun(max, ops).list, e, key)
  {
    LruIsExactIfPromoterKeepsUp(max, ops);
    LruDistinct(max, ops);
    DrainedDistinct(LruRun(max, ops).list, LruRun(max, ops).queue);
    WriteLosesIff(max, ops, e, key);
  }

  /** The entry read last, when the write overtakes that read: it is lost exactly
      if it fits beside the entry written, but not behind what is in front of it. */
  lemma OvertakenReadLostIff(max: int, ops: seq<Op>, key: string, e: Entry)
    requires KeepsUp(max, ops) && |LruRun(max, ops).queue| < QUEUE
    requires HasKey(LruRun(max, ops).list, key) && key != e.key
    ensures var l := LruRun(max, ops).list;
            Lost(max, ops + [Read(key)] + [Write(e.key, e.hash, e.value)], key)
            <==> e.value.Len() + l[IndexOf(l, key)].value.Len() <= max < Needed(l, e, key)
  {
    var st := LruRun(max, ops);
    LruIsExactIfPromoterKeepsUp(max, ops);
    LruDistinct(max, ops);
    DrainedDistinct(st.list, st.queue);
    OneMore(max, ops, Read(key));
    KeepsUpOn(max, ops, Read(key));
    LostIff(max, ops + [Read(key)], e, key);
    NeededInFront(ExactRun(max, ops), e, key);
    SameEntry(st.list, st.queue, key);
  }

  lemma KeepsUpOn(max: int, ops: seq<Op>, op: Op)
    requires KeepsUp(max, ops) && PromptAt(LruRun(max, ops), op)
    ensures KeepsUp(max, ops + [op])
  {
    forall n | 0 <= n < |ops + [op]|
      ensures PromptAt(LruRun(max, (ops + [op])[..n]), (ops + [op])[n])
    {
      assert (ops + [op])[..n] == ops[..n];
    }
  }

  /** Promotions do not change entries. */
  lemma {:induction false} SameEntry(l: seq<Entry>, queue: seq<string>, key: string)
    requires DistinctKeys(l) && HasKey(l, key)
    ensures var d := Drained(l, queue); IndexOf(d, key) < |d| && d[IndexOf(d, key)] == l[IndexOf(l, key)]
  {
    if queue != [] {
      var rest := queue[..|queue| - 1];
      SameEntry(l, rest, key);
      DrainedDistinct(l, rest);
      var d := Drained(l, rest);
      PromoteFacts(d, queue[|queue| - 1]);
      HasKeyIff(Promote(d, queue[|queue| - 1]), d[IndexOf(d, key)]);
    }
  }

  /** A read that finds the queue full is never applied: when exactly its entry
      is lost, however many of the queued reads are applied before the next write. */
  lemma DroppedReadLostIff(max: int, ops: seq<Op>, key: string, n: nat, ops': seq<Op>, e: Entry)
    requires KeepsUp(max, ops) && |LruRun(max, ops).queue| == QUEUE
    requires HasKey(LruRun(max, ops).list, key) && key != e.key
    requires Then(ops + [Read(key)], Promoter, n, ops') && n <= QUEUE
    ensures var l := LruRun(max, ops').list;
            HasKey(l, key)
            && (Lost(max, ops' + [Write(e.key, e.hash, e.value)], key)
                <==> e.value.Len() + l[IndexOf(l, key)].value.Len() <= max < Needed(l, e, key))
  {
    var st, st', exact := LruRun(max, ops), LruRun(max, ops'), ExactRun(max, ops);
    LruIsExactIfPromoterKeepsUp(max, ops);
    LruDistinct(max, ops);
    LruDistinct(max, ops');
    DrainedDistinct(st.list, st.queue);
    OneMore(max, ops, Read(key));
    QueueDrains(max, ops + [Read(key)], n, ops');
    DrainedDistinct(st'.list, st'.queue);
    NeededInFront(exact, e, key);
    SameEntry(st'.list, st'.queue, key);
    WriteLosesIff(max, ops', e, key);
  }

  lemma PromotedIsFirst(l: seq<Entry>, key: string)
    requires HasKey(l, key)
    ensures Promote(l, key) != [] && Promote(l, key)[0].key == key
  {
  }

  // ----- when the order is exact

  /** The last of the queued keys that are in the list, if any, is `key`. */
  predicate EndsWith(l: seq<Entry>, queue: seq<string>, key: string) {
    queue == []
    || var last := queue[|queue| - 1];
       if HasKey(l, last) then last == key else EndsWith(l, queue[..|queue| - 1], key)
  }

  /** What is in front stays there exactly if no other entry is promoted after it. */
  lemma {:induction false} FrontStaysIff(l: seq<Entry>, queue: seq<string>, e: Entry)
    requires DistinctKeys(l) && l != [] && l[0] == e
    ensures Drained(l, queue) != [] && (Drained(l, queue)[0] == e <==> EndsWith(l, queue, e.key))
  {
    if queue != [] {
      var rest, last := queue[..|queue| - 1], queue[|queue| - 1];
      FrontStaysIff(l, rest, e);
      DrainedDistinct(l, rest);
      PromoteFacts(Drained(l, rest), last);
      if HasKey(l, last) {
        PromotedIsFirst(Drained(l, rest), last);
        IndexUnique(l, 0);
        SameEntry(l, queue, e.key);
      }
    }
  }

  /** Of a list, its first `n` entries are left; the same entries, in the order
      of the drained list, are left of that: so drained first or last makes no difference. */
  lemma {:induction false} PrefixDrained(l: seq<Entry>, queue: seq<string>, n: nat, m: nat)
    requires DistinctKeys(l) && n <= |l| && m <= |Drained(l, queue)|
    requires forall x :: x in l[..n] <==> x in Drained(l, queue)[..m]
    ensures Drained(l[..n], queue) == Drained(l, queue)[..m]
    decreases |l|
  {
    var d := Drained(l, queue);
    DrainedDistinct(l, queue);
    DrainedSame(l, queue);
    if n == |l| {
      assert l[..n] == l;
      AllOfIt(l, d, m);
      assert d[..m] == d;
    } else {
      var x, l' := l[|l| - 1], l[..|l| - 1];
      IndexUnique(l, |l| - 1);
      assert Without(l, x.key) == l';
      assert x !in l[..n];
      DrainedWithout(l, queue, x.key);
      var i := IndexOf(d, x.key);
      HasKeyIff(d, x);
      assert d[i] == x && m <= i;
      assert RemoveAt(d, i)[..m] == d[..m] && l'[..n] == l[..n];
      PrefixDrained(l', queue, n, m);
    }
  }

  lemma {:induction false} DrainedSame(l: seq<Entry>, queue: seq<string>)
    requires DistinctKeys(l)
    ensures |Drained(l, queue)| == |l| && forall x :: x in Drained(l, queue) <==> x in l
  {
    if queue != [] {
      DrainedSame(l, queue[..|queue| - 1]);
      DrainedDistinct(l, queue[..|queue| - 1]);
      PromoteFacts(Drained(l, queue[..|queue| - 1]), queue[|queue| - 1]);
    }
  }

  lemma AllOfIt(l: seq<Entry>, d: seq<Entry>, m: nat)
    requires DistinctKeys(d) && m <= |d| && (forall x :: x in d <==> x in l) && forall x :: x in l <==> x in d[..m]
    ensures m == |d|
  {
    if m < |d| {
      NotBefore(d, m);
    }
  }

  lemma NotBefore(d: seq<Entry>, m: nat)
    requires DistinctKeys(d) && m < |d|
    ensures exists x :: x in d && x !in d[..m]
  {
    assert d[m] in d && d[m] !in d[..m];
  }

  /** Once a write has overtaken queued reads, the store is still exact, short of
      these reads, if and only if the entry written does not fit at all; or the
      write has left the same entries, and of those queued that are among them
      the last is the one written. */
  lemma OvertakingExactIff(max: int, ops: seq<Op>, e: Entry)
    requires KeepsUp(max, ops)
    ensures var st, ops' := LruRun(max, ops), ops + [Write(e.key, e.hash, e.value)];
            var kept, exact := LruWrite(st.list, max, e), LruWrite(ExactRun(max, ops), max, e);
            Drained(LruRun(max, ops').list, LruRun(max, ops').queue) == ExactRun(max, ops')
            <==> e.value.Len() > max
                 || ((forall x :: x in kept <==> x in exact) && EndsWith(kept, st.queue, e.key))
  {
    var st := LruRun(max, ops);
    LruIsExactIfPromoterKeepsUp(max, ops);
    LruDistinct(max, ops);
    OneMore(max, ops, Write(e.key, e.hash, e.value));
    WriteCommutesIff(st.list, st.queue, max, e);
  }

  lemma WriteCommutesIff(l: seq<Entry>, queue: seq<string>, max: int, e: Entry)
    requires DistinctKeys(l)
    ensures var kept, exact := LruWrite(l, max, e), LruWrite(Drained(l, queue), max, e);
            Drained(kept, queue) == exact
            <==> e.value.Len() > max || ((forall x :: x in kept <==> x in exact) && EndsWith(kept, queue, e.key))
  {
    var d := Drained(l, queue);
    var kept, exact := LruWrite(l, max, e), LruWrite(d, max, e);
    DrainedDistinct(l, queue);
    WrittenIsFirst(l, max, e);
    WrittenIsFirst(d, max, e);
    DrainedSame(kept, queue);
    if e.value.Len() > max {
      assert |Drained(kept, queue)| == 0;
    } else {
      FrontStaysIff(kept, queue, e);
      if (forall x :: x in kept <==> x in exact) && EndsWith(kept, queue, e.key) {
        SameTail(l, queue, max, e);
        assert Drained(kept, queue) == [e] + Drained(kept, queue)[1..];
      }
    }
  }

  lemma WrittenIsFirst(l: seq<Entry>, max: int, e: Entry)
    requires DistinctKeys(l)
    ensures DistinctKeys(LruWrite(l, max, e))
    ensures if e.value.Len() > max then LruWrite(l, max, e) == []
            else LruWrite(l, max, e) != [] && LruWrite(l, max, e)[0] == e
  {
    var c := [e] + Without(l, e.key);
    var n := LruWriteFacts(l, max, e);
    KeptIffFits(c, max, 0);
    assert c[..1] == [e] && Total([e]) == e.value.Len();
  }

  lemma FrontRemoved(q: seq<Entry>)
    requires DistinctKeys(q) && q != []
    ensures Without(q, q[0].key) == q[1..]
  {
    IndexUnique(q, 0);
  }

  /** Behind the entry written, what is left of the list, drained, is what is left of the drained list. */
  lemma SameTail(l: seq<Entry>, queue: seq<string>, max: int, e: Entry)
    requires DistinctKeys(l) && e.value.Len() <= max
    requires forall x :: x in LruWrite(l, max, e) <==> x in LruWrite(Drained(l, queue), max, e)
    requires EndsWith(LruWrite(l, max, e), queue, e.key)
    ensures var dk, exact := Drained(LruWrite(l, max, e), queue), LruWrite(Drained(l, queue), max, e);
            dk != [] && exact != [] && dk[1..] == exact[1..]
  {
    var kept, d := LruWrite(l, max, e), Drained(l, queue);
    DrainedDistinct(l, queue);
    WrittenIsFirst(l, max, e);
    WrittenIsFirst(d, max, e);
    FrontStaysIff(kept, queue, e);
    DrainedDistinct(kept, queue);
    FrontRemoved(Drained(kept, queue));
    FrontRemoved(kept);
    DrainedWithout(kept, queue, e.key);
    WithoutFacts(l, e.key);
    DrainedWithout(l, queue, e.key);
    var n := TailOfWrite(l, max, e);
    var m := TailOfWrite(d, max, e);
    SameBehind(kept, LruWrite(d, max, e));
    PrefixDrained(Without(l, e.key), queue, n, m);
  }

  lemma TailOfWrite(l: seq<Entry>, max: int, e: Entry) returns (n: nat)
    requires DistinctKeys(l) && LruWrite(l, max, e) != []
    ensures n <= |Without(l, e.key)| && LruWrite(l, max, e)[1..] == Without(l, e.key)[..n]
  {
    n := LruWriteFacts(l, max, e);
    n := n - 1;
  }

  lemma SameBehind(p: seq<Entry>, q: seq<Entry>)
    requires DistinctKeys(p) && DistinctKeys(q) && p != [] && q != [] && p[0] == q[0]
    requires forall x :: x in p <==> x in q
    ensures forall x :: x in p[1..] <==> x in q[1..]
  {
    forall x
      ensures x in p[1..] <==> x in q[1..]
    {
      assert x in p[1..] <==> x in p && x != p[0];
      assert x in q[1..] <==> x in q && x != q[0];
    }
  }

  /** And a read that finds the queue full leaves it exact only if its entry is
      in front anyway. */
  lemma DroppedReadExactIff(max: int, ops: seq<Op>, key: string)
    requires KeepsUp(max, ops) && |LruRun(max, ops).queue| == QUEUE && HasKey(LruRun(max, ops).list, key)
    ensures var ops' := ops + [Read(key)]; var l := ExactRun(max, ops);
            Drained(LruRun(max, ops').list, LruRun(max, ops').queue) == ExactRun(max, ops')
            <==> l != [] && l[0].key == key
  {
    LruIsExactIfPromoterKeepsUp(max, ops);
    LruDistinct(max, ops);
    DrainedDistinct(LruRun(max, ops).list, LruRun(max, ops).queue);
    OneMore(max, ops, Read(key));
    var l := ExactRun(max, ops);
    PromotedIsFirst(l, key);
    if l[0].key == key {
      IndexUnique(l, 0);
      assert [l[0]] + RemoveAt(l, 0) == l;
    }
  }

  lemma {:induction false} ReadsQueue(max: int, ops: seq<Op>, key: string, n: nat, ops': seq<Op>)
    requires Then(ops, Read(key), n, ops')
    requires HasKey(LruRun(max, ops).list, key) && |LruRun(max, ops).queue| + n <= QUEUE
    ensures LruRun(max, ops').list == LruRun(max, ops).list
    ensures |LruRun(max, ops').queue| == |LruRun(max, ops).queue| + n
    decreases n
  {
    if n == 0 {
      assert ops' == ops;
    } else {
      Front(ops, Read(key), n, ops');
      ReadsQueue(max, ops, key, n - 1, ops'[..|ops'| - 1]);
    }
  }

  /** And the queue can get full while the promoter keeps up: reads alone do it. */
  lemma ReadsFillQueue(max: int, ops: seq<Op>, key: string, n: nat, ops': seq<Op>)
    requires Then(ops, Read(key), n, ops')
    requires KeepsUp(max, ops) && HasKey(LruRun(max, ops).list, key) && |LruRun(max, ops).queue| + n <= QUEUE
    ensures KeepsUp(max, ops') && HasKey(LruRun(max, ops').list, key)
    ensures |LruRun(max, ops').queue| == |LruRun(max, ops).queue| + n
  {
    ReadsQueue(max, ops, key, n, ops');
    forall i | 0 <= i < |ops'|
      ensures PromptAt(LruRun(max, ops'[..i]), ops'[i])
    {
      if i < |ops| {
        assert ops'[..i] == ops[..i] && ops'[i] == ops[i];
      } else {
        PromptRead(max, ops, key, n, ops', i);
      }
    }
  }

  lemma PromptRead(max: int, ops: seq<Op>, key: string, n: nat, ops': seq<Op>, i: nat)
    requires Then(ops, Read(key), n, ops') && |ops| <= i < |ops'|
    requires HasKey(LruRun(max, ops).list, key) && |LruRun(max, ops).queue| + n <= QUEUE
    ensures PromptAt(LruRun(max, ops'[..i]), ops'[i])
  {
    assert ops'[..i][..|ops|] == ops'[..|ops|];
    ReadsQueue(max, ops, key, i - |ops|, ops'[..i]);
  }

  // ----- how long LRU keeps a value

  /** The bytes of the entry that the operation moves or puts to the front. */
  function Touched(st: Lru, op: Op): nat {
    match op
    case Write(_, _, value) => value.Len()
    case Promoter =>
      if st.queue == [] then 0
      else
        var i := IndexOf(st.list, st.queue[0]);
        if i < |st.list| then st.list[i].value.Len() else 0
    case Read(_) => 0
    case Delete(_) => 0
  }

  /** The same for the operations of a run from place `from` on. */
  function BytesTouched(max: int, ops: seq<Op>, from: nat): nat {
    if |ops| <= from then 0
    else
      var rest := ops[..|ops| - 1];
      BytesTouched(max, rest, from) + Touched(LruRun(max, rest), ops[|ops| - 1])
  }

  /** The entry is in the list, and up to there the list has at most `n` bytes. */
  ghost predicate Within(l: seq<Entry>, e: Entry, n: nat) {
    exists i :: 0 <= i < |l| && l[i] == e && Total(l[..i + 1]) <= n
  }

  lemma WithinWithout(l: seq<Entry>, gone: string, e: Entry, n: nat)
    requires DistinctKeys(l) && Within(l, e, n) && e.key != gone
    ensures Within(Without(l, gone), e, n)
  {
    var i :| 0 <= i < |l| && l[i] == e && Total(l[..i + 1]) <= n;
    var p := IndexOf(l, gone);
    if p < |l| {
      var j := StillBefore(l, p, i, n);
      PlaceWithin(RemoveAt(l, p), j, e, n);
    }
  }

  /** Where an entry is once another is removed. */
  lemma StillBefore(l: seq<Entry>, p: nat, i: nat, n: nat) returns (j: nat)
    requires p < |l| && i < |l| && p != i && Total(l[..i + 1]) <= n
    ensures j < |RemoveAt(l, p)| && RemoveAt(l, p)[j] == l[i] && Total(RemoveAt(l, p)[..j + 1]) <= n
  {
    if p < i {
      RemovedInFront(l, p, i);
      j := i - 1;
    } else {
      assert RemoveAt(l, p)[..i + 1] == l[..i + 1];
      j := i;
    }
  }

  lemma RemovedInFront(l: seq<Entry>, p: nat, i: nat)
    requires p < i < |l|
    ensures RemoveAt(l, p)[i - 1] == l[i] && Total(RemoveAt(l, p)[..i]) <= Total(l[..i + 1])
  {
    TotalSplit(l[..i + 1], p);
    assert RemoveAt(l, p)[..i] == RemoveAt(l[..i + 1], p);
  }

  lemma PlaceWithin(l: seq<Entry>, i: nat, e: Entry, n: nat)
    requires i < |l| && l[i] == e && Total(l[..i + 1]) <= n
    ensures Within(l, e, n)
  {
  }

  lemma WithinBehind(l: seq<Entry>, x: Entry, e: Entry, n: nat)
    requires Within(l, e, n)
    ensures Within([x] + l, e, x.value.Len() + n)
  {
    var i :| 0 <= i < |l| && l[i] == e && Total(l[..i + 1]) <= n;
    assert ([x] + l)[..i + 2] == [x] + l[..i + 1];
    PlaceWithin([x] + l, i + 1, e, x.value.Len() + n);
  }

  lemma WithinKept(l: seq<Entry>, max: int, e: Entry, n: nat)
    requires Within(l, e, n) && n <= max
    ensures Within(EvictBack(l, max), e, n)
  {
    var i :| 0 <= i < |l| && l[i] == e && Total(l[..i + 1]) <= n;
    KeptIffFits(l, max, i);
    var m := EvictBackIsPrefix(l, max);
    assert l[..m][..i + 1] == l[..i + 1];
    PlaceWithin(l[..m], i, e, n);
  }

  lemma WithinPromoted(l: seq<Entry>, key: string, e: Entry, n: nat)
    requires DistinctKeys(l) && Within(l, e, n)
    ensures Within(Promote(l, key), e, n + var i := IndexOf(l, key); if i < |l| then l[i].value.Len() else 0)
  {
    var i, l' := IndexOf(l, key), Promote(l, key);
    if i < |l| {
      if l[i] == e {
        var j :| 0 <= j < |l| && l[j] == e && Total(l[..j + 1]) <= n;
        TotalSplit(l[..j + 1], j);
        assert l'[..1] == [e] && Total([e]) == e.value.Len() && l'[..0 + 1] == [e] && l'[0] == e;
      } else {
        var j :| 0 <= j < |l| && l[j] == e && Total(l[..j + 1]) <= n;
        WithinWithout(l, key, e, n);
        WithinBehind(Without(l, key), l[i], e, n);
        assert l' == [l[i]] + Without(l, key);
      }
    }
  }

  lemma StepKeepsWithin(st: Lru, max: int, op: Op, e: Entry, n: nat)
    requires DistinctKeys(st.list) && Within(st.list, e, n) && n + Touched(st, op) <= max
    requires op.Write? || op.Delete? ==> op.key != e.key
    ensures Within(LruStep(st, max, op).list, e, n + Touched(st, op))
  {
    match op
    case Write(key, hash, value) =>
      var x := Entry(key, hash, value);
      WithinWithout(st.list, key, e, n);
      WithinBehind(Without(st.list, key), x, e, n);
      WithinKept([x] + Without(st.list, key), max, e, value.Len() + n);
    case Delete(key) => WithinWithout(st.list, key, e, n);
    case Read(_) =>
    case Promoter => if st.queue != [] { WithinPromoted(st.list, st.queue[0], e, n); }
  }

  lemma WrittenWithin(l: seq<Entry>, max: int, e: Entry)
    requires e.value.Len() <= max
    ensures Within(LruWrite(l, max, e), e, e.value.Len())
  {
    var c := [e] + Without(l, e.key);
    assert c[..1] == [e] && Total([e]) == e.value.Len();
    PlaceWithin(c, 0, e, e.value.Len());
    WithinKept(c, max, e, e.value.Len());
  }

  /** A value written at place `w` stays readable until the key is written or
      deleted again, or the bytes of the entries touched since no longer fit
      beside it. */
  lemma {:induction false} LruRetains(max: int, ops: seq<Op>, w: nat, e: Entry)
    requires w < |ops| && ops[w] == Write(e.key, e.hash, e.value)
    requires forall i :: w < i < |ops| && (ops[i].Write? || ops[i].Delete?) ==> ops[i].key != e.key
    requires e.value.Len() + BytesTouched(max, ops, w + 1) <= max
    ensures Within(LruRun(max, ops).list, e, e.value.Len() + BytesTouched(max, ops, w + 1))
    decreases |ops|
  {
    var rest, op := ops[..|ops| - 1], ops[|ops| - 1];
    if |ops| == w + 1 {
      WrittenWithin(LruRun(max, rest).list, max, e);
    } else {
      LruRetains(max, rest, w, e);
      LruDistinct(max, rest);
      StepKeepsWithin(LruRun(max, rest), max, op, e, e.value.Len() + BytesTouched(max, rest, w + 1));
    }
  }
}
