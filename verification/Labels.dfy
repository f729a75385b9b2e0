/** The labels under which virtual nodes are hashed: a node's name followed by
    an index. Which names can share a label, and so collide whatever the hash
    function is. */
module Labels {
  import opened Values
  import opened HashRing

  // ----- decimal notation

  predicate IsDigits(s: string) {
    forall i :: 0 <= i < |s| ==> '0' <= s[i] <= '9'
  }

  /** What digits stand for, the last one for units. */
  function ValueOf(s: string): nat
    requires IsDigits(s)
  {
    if s == "" then 0 else 10 * ValueOf(s[..|s| - 1]) + (s[|s| - 1] as int - '0' as int)
  }

  /** Digits without a needless zero in front. */
  predicate IsNotation(s: string) {
    s != "" && IsDigits(s) && (|s| > 1 ==> s[0] != '0')
  }

  /** The index in a label is in decimal notation, which there is only one of. */
  lemma DecimalIff(i: nat, s: string)
    ensures s == Decimal(i) <==> IsNotation(s) && ValueOf(s) == i
  {
    DecimalDenotes(i);
    if IsNotation(s) && ValueOf(s) == i {
      NotationIsDecimal(s);
    }
  }

  lemma {:induction false} DecimalDenotes(i: nat)
    ensures IsNotation(Decimal(i)) && ValueOf(Decimal(i)) == i && (i > 0 ==> Decimal(i)[0] != '0')
  {
    if i >= 10 {
      DecimalDenotes(i / 10);
      LastDigit(Decimal(i / 10), i % 10);
    } else {
      LastDigit("", i);
      assert Decimal(i) == "" + [Digit(i)];
    }
  }

  function Digit(d: nat): char
    requires d < 10
  {
    ('0' as int + d) as char
  }

  lemma LastDigit(front: string, d: nat)
    requires d < 10 && IsDigits(front)
    ensures "0123456789"[d] == Digit(d) && IsDigits(front + [Digit(d)])
    ensures ValueOf(front + [Digit(d)]) == 10 * ValueOf(front) + d
  {
    assert (front + [Digit(d)])[..|front|] == front;
  }

  lemma {:induction false} NotationIsDecimal(s: string)
    requires IsNotation(s)
    ensures Decimal(ValueOf(s)) == s
    decreases |s|
  {
    var front, d := s[..|s| - 1], s[|s| - 1] as int - '0' as int;
    LastDigit(front, d);
    assert s == front + [Digit(d)];
    if |s| > 1 {
      NotationIsDecimal(front);
      DecimalDenotes(ValueOf(front));
      assert ValueOf(front) > 0;
      assert ValueOf(s) / 10 == ValueOf(front) && ValueOf(s) % 10 == d;
    } else {
      assert front == "" && ValueOf(s) == d;
    }
  }

  // ----- shared labels

  /** Two of the first `count` labels of `a` and of `b` are the same. */
  ghost predicate ShareLabel(a: string, b: string, count: nat) {
    exists i: nat, j: nat :: i < count && j < count && a + Decimal(i) == b + Decimal(j)
  }

  /** `b` is `a` followed by a positive number of which ten times is below `count`. */
  ghost predicate Numbers(a: string, b: string, count: nat) {
    exists d: nat :: d >= 1 && 10 * d < count && b == a + Decimal(d)
  }

  /** A proper beginning of a decimal whose rest is one, too, is the decimal of
      at most a tenth of it. */
  lemma {:induction false} DecimalFront(i: nat, w: string, j: nat) returns (d: nat)
    requires Decimal(i) == w + Decimal(j) && w != ""
    ensures d >= 1 && 10 * d <= i && w == Decimal(d)
    decreases j
  {
    assert i >= 10;
    var front, last := Decimal(i / 10), Decimal(i)[|Decimal(i)| - 1];
    assert Decimal(i)[..|Decimal(i)| - 1] == front;
    if j < 10 {
      d := i / 10;
      assert (w + Decimal(j))[..|w|] == w;
    } else {
      assert (w + Decimal(j))[..|w + Decimal(j)| - 1] == w + Decimal(j / 10);
      d := DecimalFront(i / 10, w, j / 10);
    }
  }

  lemma Excess(a: string, x: string, b: string, y: string) returns (w: string)
    requires |a| < |b| && a + x == b + y
    ensures b == a + w && x == w + y && w != ""
  {
    w := b[|a|..];
    assert (a + x)[..|a|] == a && (b + y)[..|b|] == b;
    assert (a + x)[|a|..] == x && (b + y)[|a|..] == w + y;
  }

  lemma ShortShares(a: string, b: string, count: nat)
    requires |a| < |b|
    ensures ShareLabel(a, b, count) <==> Numbers(a, b, count)
  {
    if ShareLabel(a, b, count) {
      var i: nat, j: nat :| i < count && j < count && a + Decimal(i) == b + Decimal(j);
      var w := Excess(a, Decimal(i), b, Decimal(j));
      var d := DecimalFront(i, w, j);
    }
    if d: nat :| d >= 1 && 10 * d < count && b == a + Decimal(d) {
      NumberShares(a, d);
      assert a + Decimal(10 * d) == b + Decimal(0);
    }
  }

  lemma NumberShares(a: string, d: nat)
    requires d >= 1
    ensures a + Decimal(10 * d) == a + Decimal(d) + Decimal(0)
  {
    assert Decimal(10 * d) == Decimal(d) + "0" && Decimal(0) == "0";
  }

  lemma EqualLengthsShareNothing(a: string, b: string, count: nat)
    requires |a| == |b| && a != b
    ensures !ShareLabel(a, b, count)
  {
    forall i: nat, j: nat
      ensures a + Decimal(i) != b + Decimal(j)
    {
      assert (a + Decimal(i))[..|a|] == a && (b + Decimal(j))[..|a|] == b;
    }
  }

  /** Two names share a label exactly if one is the other followed by a number
      of which ten times is below the number of virtual nodes. */
  lemma ShareLabelIff(a: string, b: string, count: nat)
    requires a != b
    ensures ShareLabel(a, b, count) <==> Numbers(a, b, count) || Numbers(b, a, count)
  {
    SharesEitherWay(a, b, count);
    if |a| < |b| {
      ShortShares(a, b, count);
    } else if |b| < |a| {
      ShortShares(b, a, count);
    } else {
      EqualLengthsShareNothing(a, b, count);
    }
  }

  lemma SharesEitherWay(a: string, b: string, count: nat)
    ensures ShareLabel(a, b, count) <==> ShareLabel(b, a, count)
  {
  }

  /** So exactly such names collide under every hash function. With the code's
      150 virtual nodes, these are the numbers from 1 to 14. */
  lemma CollideForEveryHashIff(a: string, b: string, virtualNodes: int)
    requires a != b
    ensures var count := NewConfig(_ => 0, virtualNodes).Count();
            (forall sum64: string -> Hash :: !NoCollision(NewConfig(sum64, virtualNodes), {a, b}))
            <==> Numbers(a, b, count) || Numbers(b, a, count)
  {
    var count := NewConfig(_ => 0, virtualNodes).Count();
    ShareLabelIff(a, b, count);
    if ShareLabel(a, b, count) {
      forall sum64: string -> Hash
        ensures !NoCollision(NewConfig(sum64, virtualNodes), {a, b})
      {
        SharedLabelCollides(sum64, a, b, virtualNodes, count);
      }
    } else {
      var sum64 := (s: string) => if exists j: nat :: j < count && s == b + Decimal(j) then 1 as Hash else 0;
      assert NoCollision(NewConfig(sum64, virtualNodes), {a, b});
    }
  }

  lemma SharedLabelCollides(sum64: string -> Hash, a: string, b: string, virtualNodes: int, count: nat)
    requires a != b && ShareLabel(a, b, count) && count == NewConfig(sum64, virtualNodes).Count()
    ensures !NoCollision(NewConfig(sum64, virtualNodes), {a, b})
  {
    var c := NewConfig(sum64, virtualNodes);
    var i: nat, j: nat :| i < count && j < count && a + Decimal(i) == b + Decimal(j);
    assert VirtualNodeOf(c, a, i).hash == VirtualNodeOf(c, b, j).hash;
  }
}
