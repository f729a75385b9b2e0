/** Values and specification functions of the consistent hash ring: virtual
    nodes on a circle of 64-bit hashes, where a key belongs to the node of the
    nearest virtual node at or behind its hash. */
module HashRing {
  import opened Values

  /** What a ring is built with: `sum64` hashes keys, `position` says where on
      the circle a node's i-th virtual node goes, and `virtualNodes` is the
      number of entries every node gets. About `position` the theory of the ring
      assumes nothing; NewConfig gives the one the code uses. */
  datatype Config = Config(sum64: string -> Hash, position: (string, nat) -> Hash, virtualNodes: int) {
    // Ranging over a negative Go integer does nothing.
    function Count(): nat {
      if virtualNodes < 0 then 0 else virtualNodes
    }
  }

  datatype VirtualNode = VirtualNode(name: string, index: nat, hash: Hash)

  datatype RingState = RingState(nodes: seq<string>, ring: seq<VirtualNode>)

  const EMPTY := RingState([], [])

  /** Decimal notation of a natural number, as fmt.Sprint writes it. */
  function Decimal(i: nat): string {
    if i < 10 then ["0123456789"[i]] else Decimal(i / 10) + ["0123456789"[i % 10]]
  }

  /** `sum64` stands for xxhash, about which nothing is assumed. */
  function NewConfig(sum64: string -> Hash, virtualNodes: int): Config {
    Config(sum64, (name: string, i: nat) => sum64(name + Decimal(i)), virtualNodes)
  }

  function VirtualNodeOf(c: Config, name: string, i: nat): VirtualNode {
    VirtualNode(name, i, c.position(name, i))
  }

  ghost predicate Sorted(ring: seq<VirtualNode>) {
    forall i, j :: 0 <= i < j < |ring| ==> ring[i].hash <= ring[j].hash
  }

  /** One past the rightmost of the first `n` entries whose hash is at most `h`. */
  function Bound(ring: seq<VirtualNode>, h: Hash, n: nat): (p: nat)
    requires n <= |ring|
    ensures p <= n
    ensures forall i :: p <= i < n ==> ring[i].hash > h
    ensures p > 0 ==> ring[p - 1].hash <= h
  {
    if n == 0 || ring[n - 1].hash <= h then n else Bound(ring, h, n - 1)
  }

  /** One past the rightmost entry whose hash is at most `h`. */
  function UpperBound(ring: seq<VirtualNode>, h: Hash): nat {
    Bound(ring, h, |ring|)
  }

  function InsertAt<T>(s: seq<T>, p: nat, x: T): seq<T>
    requires p <= |s|
  {
    s[..p] + [x] + s[p..]
  }

  /** Places an entry behind every entry of equal or smaller hash. */
  function Insert(ring: seq<VirtualNode>, v: VirtualNode): seq<VirtualNode> {
    InsertAt(ring, UpperBound(ring, v.hash), v)
  }

  /** The ring after the first `k` virtual nodes of `name` went in. */
  function InsertUpTo(c: Config, ring: seq<VirtualNode>, name: string, k: nat): seq<VirtualNode> {
    if k == 0 then ring else Insert(InsertUpTo(c, ring, name, k - 1), VirtualNodeOf(c, name, k - 1))
  }

  /** The first `n` elements without those to delete. */
  function Kept<T>(s: seq<T>, del: T -> bool, n: nat): seq<T>
    requires n <= |s|
  {
    if n == 0 then [] else Kept(s, del, n - 1) + if del(s[n - 1]) then [] else [s[n - 1]]
  }

  function Filter<T>(s: seq<T>, del: T -> bool): seq<T> {
    Kept(s, del, |s|)
  }

  function IsName(name: string): string -> bool {
    (n: string) => n == name
  }

  function HasName(name: string): VirtualNode -> bool {
    (v: VirtualNode) => v.name == name
  }

  function Add(c: Config, st: RingState, name: string): RingState {
    RingState(st.nodes + [name], InsertUpTo(c, st.ring, name, c.Count()))
  }

  function Remove(st: RingState, name: string): RingState {
    RingState(Filter(st.nodes, IsName(name)), Filter(st.ring, HasName(name)))
  }

  /** The rightmost entry with hash <= h; without one, the last entry. */
  function OwnerIndex(ring: seq<VirtualNode>, h: Hash): nat
    requires ring != []
  {
    var p := UpperBound(ring, h);
    if p == 0 then |ring| - 1 else p - 1
  }

  function Owner(ring: seq<VirtualNode>, h: Hash): string {
    if ring == [] then "" else ring[OwnerIndex(ring, h)].name
  }

  // ----- distances on the circle

  /** How far one walks backwards around the circle from `h` to reach `x`. */
  function Distance(h: Hash, x: Hash): nat {
    if x <= h then h - x else h - x + MODULUS
  }

  /** Entry `i` of hash `x` comes before entry `j` of hash `y` in the choice of an owner for `h`. */
  predicate Beats(h: Hash, x: Hash, i: int, y: Hash, j: int) {
    Distance(h, x) < Distance(h, y) || (Distance(h, x) == Distance(h, y) && j < i)
  }

  /** Entry `k` is the nearest one behind `h`; of entries at equal distance the
      one furthest right counts. */
  ghost predicate Nearest(ring: seq<VirtualNode>, h: Hash, k: int) {
    && 0 <= k < |ring|
    && forall j :: 0 <= j < |ring| && j != k ==> Beats(h, ring[k].hash, k, ring[j].hash, j)
  }

  /** Distance from `h` back to the nearest entry; an empty ring is further away than anything. */
  ghost function RingDistance(ring: seq<VirtualNode>, h: Hash): nat {
    if ring == [] then MODULUS else Distance(h, ring[OwnerIndex(ring, h)].hash)
  }

  /** Distance from `h` back to the nearest of the first `k` virtual nodes of `name`. */
  ghost function NodeDistance(c: Config, name: string, h: Hash, k: nat): nat {
    if k == 0 then MODULUS
    else
      var d := Distance(h, VirtualNodeOf(c, name, k - 1).hash);
      var rest := NodeDistance(c, name, h, k - 1);
      if d < rest then d else rest
  }

  /** The rank of a node for a hash; the smaller, the closer the node is to owning it. */
  ghost function Rank(c: Config, name: string, h: Hash): nat {
    NodeDistance(c, name, h, c.Count())
  }

  ghost predicate TieFreeAt(c: Config, names: set<string>, h: Hash) {
    forall a, b :: a in names && b in names && a != b ==> Rank(c, a, h) != Rank(c, b, h)
  }

  ghost predicate NearestIn(c: Config, names: set<string>, h: Hash, n: string) {
    n in names && forall m :: m in names ==> Rank(c, n, h) <= Rank(c, m, h)
  }

  /** No two of the nodes are nearest to the hash; behind the nearest one, nodes may tie. */
  ghost predicate OneNearest(c: Config, names: set<string>, h: Hash) {
    forall a, b :: NearestIn(c, names, h, a) && NearestIn(c, names, h, b) ==> a == b
  }

  /** No virtual nodes of two different nodes have the same hash. */
  ghost predicate NoCollision(c: Config, names: set<string>) {
    forall a, b, i: nat, j: nat :: a in names && b in names && a != b && i < c.Count() && j < c.Count() ==>
      VirtualNodeOf(c, a, i).hash != VirtualNodeOf(c, b, j).hash
  }

  // ----- the representation invariant

  /** The ring holds, in hash order, exactly the first quota[n] virtual nodes of
      every n in `quota`, those of one node with equal hashes by index. */
  ghost predicate Represents(c: Config, ring: seq<VirtualNode>, quota: map<string, nat>) {
    && Sorted(ring)
    && (forall k :: 0 <= k < |ring| ==>
          && ring[k].name in quota && ring[k].index < quota[ring[k].name]
          && ring[k].hash == c.position(ring[k].name, ring[k].index))
    && (forall n, i: nat :: n in quota && i < quota[n] ==> VirtualNodeOf(c, n, i) in ring)
    && (forall j, k :: 0 <= j < k < |ring| && ring[j].name == ring[k].name && ring[j].hash == ring[k].hash ==>
          ring[j].index < ring[k].index)
  }

  ghost function Quota(names: seq<string>, n: nat): map<string, nat> {
    map x | x in names :: n
  }

  ghost predicate WellFormed(c: Config, st: RingState) {
    NoDuplicates(st.nodes) && Represents(c, st.ring, Quota(st.nodes, c.Count()))
  }
}
