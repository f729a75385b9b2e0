# QaD: a verified model of the cache

QaD is a distributed cache. Every node keeps a consistent hash ring of the
nodes it knows, a store for the keys it owns, and a pool of connections to the
other nodes; clients may send a request to any node. This project models the
ring, the transfer of keys when nodes join and leave, the three stores, the
connection pool and the routing of requests, and proves what they achieve
together. Nothing is executed; `dafny verify dfyconfig.toml` checks all of it.

## Layout

| file | what it holds |
|---|---|
| `Values.dfy`, `Slices.dfy` | byte values, hashes, Go slices over backing arrays |
| `HashRing.dfy`, `RingTheory.dfy` | the ring as a value, and its theory |
| `RingUndo.dfy`, `Labels.dfy` | what adding and removing undo of each other; decimal labels, and which names collide under every hash function |
| `ConsistentHashRing.dfy` | the ring object, updated in place, proved against the value |
| `Protocol.dfy` | the cluster as a state machine, one step per thing a node does |
| `NoLoss.dfy`, `ClientWrites.dfy` | no key is lost in any run, and exactly when; when a client's write survives a transfer |
| `Joins.dfy`, `Misplacement.dfy`, `Placement.dfy` | any number of nodes join a settled cluster at once: what happens to a key, how it can miss its owner, and exactly when it cannot |
| `Repair.dfy` | the next join puts keys in their place that earlier ones left elsewhere |
| `JoinProgress.dfy`, `JoinBound.dfy`, `Livelock.dfy` | joins can always be completed; how long they can go on, and exactly when they must come to an end |
| `TransferLoop.dfy` | the transfer loop as a function: what it hands over and what it leaves, whichever way the network behaves |
| `EventDelegate.dfy`, `Deliveries.dfy` | the handler of membership events, and its calls as runs of the state machine; how remote writes end, and loops with them |
| `Pools.dfy`, `Membership.dfy` | pools follow views; leaves, and joins one after the other |
| `GrpcPool.dfy`, `Grpc.dfy` | the connection pool; what remote calls accept |
| `Eviction.dfy`, `CacheTheory.dfy`, `LruLoss.dfy` | eviction as functions on sequences; runs of the stores compared; exactly when the LRU store loses a read |
| `NoEvictionStorage.dfy`, `FifoStorage.dfy`, `LinkedList.dfy`, `LruStorage.dfy` | the stores, updated in place |
| `Stores.dfy`, `GrpcServer.dfy` | the three stores behind one interface; the remote calls in front of any of them |
| `Routing.dfy`, `Recency.dfy`, `EndToEnd.dfy` | client requests, that a GET is a use of its key, and what a client can rely on |

## How to read it

* `sum64`, which stands for xxhash, and the place of a virtual node on the
  circle are parameters, and nothing is assumed about them. So nodes may be
  equally near to a hash. Where a theorem needs that they are not, it asks as
  little as it can: that one node is nearest to the hash (`OneNearest`), whoever
  ties behind it, which is exactly when all rings over the same nodes agree on its
  owner (`OwnersAgreeIff`); that no two nodes tie anywhere (`TieFreeAt`), which is
  exactly what no key can be lost without (`SafeIffUntied`), and what joins cannot
  be sure to end without (`JoinsEndIffUntied`); or that no entries of different
  nodes collide (`NoCollision`), without which the order of joins matters
  (`OrderMattersIffCollision`). Where a key goes in a join is settled with ties of
  any kind (`PlacedIffAtMostOneRival`, `SettlesIffFavourable`).
* `Rank(c, n, h)` is how far the hash `h` is, going back around the circle, from
  the nearest virtual node of `n`. Ownership, transfers and the absence of loss
  are all put in terms of it.
* A cluster is a map from names to nodes, each with its own view, pool, store
  and place in the transfer loop. A remote write and the local delete that
  follows it are two steps, so a run is any interleaving of the nodes' work,
  with any remote write refused, or done but reported as failed.
* What a step does is a function of the state and the step. A run is a sequence
  of steps; "every run" is a quantifier over such sequences.
* Clusters grow from one node: a single node is settled (`FirstNodeSettled`);
  fresh nodes and a settled cluster make a gathering (`NextJoinsBegin`); from every
  state it gets into, everybody can come to know everybody (`JoinsComplete`); and
  at the end the cluster is settled again, exactly if to no stored key there are
  two joiners as near as its home, or one that ties with it (`SettlesIffFavourable`).
  If it is not, the next join of a single node settles it, provided that one node is
  nearest to each stored key (`NextJoinSettles`).
* What a run keeps is proved once for a step, and carried over to runs by
  `RunKeeps`, in which the invariant is a parameter.
* Objects that the code updates in place are classes. Each method's
  postcondition gives the new state as a function of the old one, and the
  theory is about these functions. The lock of a store, or its lock-free maps,
  make each call one atomic step.
* Ring entries and lists of names are arrays with a length, as Go slices are:
  appending writes in place while there is room, and copies otherwise.

## What does not hold, and is proved not to

* Virtual nodes are labelled with the name followed by the index, so "n" with 10
  and "n1" with 0 get the same label. Two names collide under every hash function
  exactly if one is the other followed by a number of which ten times is below the
  number of virtual nodes (`CollideForEveryHashIff`): with the code's 150 these are
  the numbers from 1 to 14, as in "qad-node1" and "qad-node11". Then the order of
  joins decides ownership (`OrderMattersIffCollision`).
* A key to which two nodes are equally near can be deleted by both, each having
  given it to the other (`SwapLosesKey`). Apart from keys that remote nodes
  refuse, that is the only way to lose one (`SafeIffUntied`).
* The same ties let a key go back and forth between two nodes for as long as their
  loops see what arrives (`JoinsEndIffUntied`).
* Joins can leave a key at a node that, once everybody knows everybody, takes itself
  not for the owner (`Misplaces`), or views that do not agree on an owner
  (`TiedNeverPlaced`). A key fails to end at an owner of whom all views agree, in
  some interleaving, exactly if two nodes are nearest to it, or two joiners are as
  near to it as the node that has it (`PlacedIffAtMostOneRival`). Unless two nodes
  are nearest to it, the next join brings it back (`NextJoinRepairs`).
* A client's write, while no other node hands the key over, is lost in some run
  exactly if its node is just sending an older value of the key away, or has sent it
  and is about to delete its copy (`WriteSurvivesIff`).
* One key that its owner does not accept, or one call that fails, keeps a join from
  handing over any of the keys that are visited later (`LoopEndsAtFirstFailure`);
  they stay until the next join (`FailedWriteEndsLoop`).
* A write that overtakes queued reads costs an entry that an exact LRU cache would
  keep, exactly if the entry fits behind what is in front of it in the exact order,
  but not behind what is in front of it in the list (`LostIff`). Of the entry read
  last that is: it fits beside the one written, but not behind all that is in front
  of it (`OvertakenReadLostIff`); and so it is of one whose read finds the queue
  full (`DroppedReadLostIff`).
* RemoveNode and AddNode restore the ring exactly if the node's entries stood last
  among those of equal hash (`RemoveThenAdd`).
* An empty value, or a key with hash 0, cannot be written through another node
  than the owner; an empty value reads as missing there (`ReadBackIff`).
* A connection whose first dialling fails is never dialled again
  (`FirstDialDecides`).

The repository's README.md announces status 201 for a POST and FIFO as the only
eviction; the code answers 202 and has three stores. The model follows the code.

## Model

| member | source | states |
|---|---|---|
| Slices.SearchAbove | consistent_hash_ring/index.go:74 | the binary search returns the place a scan from the right would find: behind all hashes up to the given one |
| Slices.SortInto | consistent_hash_ring/index.go:85-95 | growing the slice and shifting its overlapping tail by one gives the old ring with the entry inserted behind all equal hashes, nothing overwritten |
| Slices.DeleteFunc | consistent_hash_ring/index.go:55-59 | deleting in place keeps exactly the other elements in their order, clears what is left over, and touches nothing behind the slice |
| ConsistentHashRing.Ring.AddNode | consistent_hash_ring/index.go:34-49 | panics exactly for a listed node, then changing nothing; else the node is listed last, and the entries are the old ones and, for each index from 0 up to the number of virtual nodes, one where the name followed by the index hashes to; the ring is well formed again |
| ConsistentHashRing.Ring.RemoveNode | consistent_hash_ring/index.go:51-60 | panics exactly for an unknown node, then changing nothing; else nodes and entries lose those of that name and no others, in order |
| ConsistentHashRing.Ring.NodeOf | consistent_hash_ring/index.go:62-65 | a key goes to the owner of its hash, and the hash is returned with it |
| ConsistentHashRing.Ring.NodeOfDirect | consistent_hash_ring/index.go:67-80 | search, wrap-around and empty ring together yield the owner of the hash |
| RingTheory.OwnerIsNearest | consistent_hash_ring/index.go:73-79 | independent of any search: the entry found is the one at the least distance back around the circle, the last of those tied |
| RingTheory.ReplayWellFormed | consistent_hash_ring/index.go:34-60 | after any sequence of joins and leaves, panicking ones included: sorted, no node twice, for each node and index exactly one entry with the right hash, and the length is nodes times virtual nodes |
| RingTheory.EveryVirtualNodeOnce | consistent_hash_ring/index.go:34-60 | after any sequence of calls on a ring made with v virtual nodes: v entries for each node, exactly one for each index from 0 to v - 1, at its place on the circle, and none of other names or indices |
| Labels.DecimalIff | consistent_hash_ring/index.go:44 | the index in a label is written in digits with that value and no needless zero in front, and that is the only such notation |
| RingTheory.OwnerHasLeastRank | consistent_hash_ring/index.go:67-80 | the owner is a listed node and none is nearer to the hash |
| RingTheory.OwnerCharacterised | consistent_hash_ring/index.go:67-80 | if one node is nearest to a hash: a node owns it if and only if it is listed and at least as near as all others |
| RingTheory.AddMovesOnlyToTheNewNode | consistent_hash_ring/index.go:34-49 | minimal disruption, ties included: a hash moves exactly if the new node is at least as near as the old ring, and then to the new node |
| RingTheory.RemoveMovesOnlyTheRemovedNodesHashes | consistent_hash_ring/index.go:51-60 | minimal disruption, ties included: exactly the removed node's hashes move, each to the nearest entry of another node |
| RingUndo.AddThenRemove | consistent_hash_ring/index.go:34-60 | adding and removing a node restores ring and node list element for element, ties included |
| RingUndo.RemoveThenAdd | consistent_hash_ring/index.go:34-60 | removing and adding a listed node restores the ring element for element if and only if none of its entries stood before another node's entry of equal hash; the nodes are the same in any case |
| RingUndo.NoCollisionNoTies | consistent_hash_ring/index.go:88-93 | without collisions that is so of every node |
| RingTheory.CanonicalRing | consistent_hash_ring/index.go:34-60 | without collisions, two well-formed rings over the same nodes are the same sequence |
| RingTheory.OrderIndependence | consistent_hash_ring/index.go:34-60 | without collisions, any two histories that end with the same nodes end with the same ring |
| RingTheory.OrderMattersIffCollision | consistent_hash_ring/index.go:88-93 | two nodes own the same hashes in either join order if and only if none of their entries collide |
| RingTheory.TieFreeIffNoCollision | consistent_hash_ring/index.go:44 | no hash has two equally near nodes if and only if no two nodes have an entry with the same hash |
| Labels.ShareLabelIff | consistent_hash_ring/index.go:40-45 | two names have a label in common if and only if one is the other followed by a positive number of which ten times is below the number of virtual nodes |
| Labels.CollideForEveryHashIff | consistent_hash_ring/index.go:40-45 | exactly the nodes with such names collide whatever the hash function is |
| RingTheory.TiedOwnersDiffer | consistent_hash_ring/index.go:88-93 | at a tie of two nodes, the two orders of adding them give the hash to different owners |
| RingTheory.OwnersAgreeIff | consistent_hash_ring/index.go:67-93 | all well-formed rings over the same nodes give a hash to the same owner if and only if one of the nodes is nearest to it, whatever ties there are behind |
| RingTheory.SubsetMonotone | consistent_hash_ring/index.go:67-80 | if one node is nearest to a hash, that owner keeps it in every ring over fewer nodes that still lists it |
| RingTheory.ArcsPartitionTheCircle | consistent_hash_ring/index.go:67-80 | every hash lies on the arc of exactly one entry, its owner's; arc lengths, with the wrapping one and empty ones of tied entries, add up to 2^64 |
| Grpc.AcceptsIff | grpc_server/index.go:53-64 | a pair survives the wire and the validation if and only if key and value are not empty and the hash is not 0, and then arrives unchanged |
| GrpcPool.Pool.AddConnection | cluster/grpc_pool.go:40-62 | refused exactly for an empty name or address, then changing nothing; else the name has the address and is not dialled, whatever it had before, and the other entries are as before |
| GrpcPool.Pool.GetClient | cluster/grpc_pool.go:64-109 | succeeds exactly if the name is known and its one dialling, now or earlier, succeeded; addresses stay |
| GrpcPool.FirstDialDecides | cluster/grpc_pool.go:75-106 | however often an entry is used and however dialling would have gone later, the first attempt decides |
| GrpcPool.RegisteredAnew | cluster/grpc_pool.go:40-106 | a node that is registered, for the first time or again, can be called exactly if the first dialling of its new address succeeds |
| GrpcPool.Pool.UpdateConnection | cluster/grpc_pool.go:112-144 | fails exactly for an unknown name; else the name has the new address, undialled |
| GrpcPool.Pool.RemoveConnection | cluster/grpc_pool.go:147-175 | fails exactly for an unknown name; afterwards the name is gone and the others are as before |
| GrpcPool.Pool.Close | cluster/grpc_pool.go:178-200 | afterwards no name is known |
| Protocol.VisitInv | cluster/event_handler.go:110-122 | in whatever view, a key is only put on its way to another member at least as near to it as the sender, since a node is in its own view |
| Protocol.RunInv | cluster/event_handler.go:61-164 | over every run: views well formed and containing the node itself, pools within views, keys stored under their own hashes, keys on their way bound for members no further away |
| NoLoss.StepKeepsKey | cluster/event_handler.go:107-138 | no step, the delete included, takes the nearest copy of a key further away |
| NoLoss.StepKeepsNearerCopy | cluster/event_handler.go:126-135 | for an untied key, a node about to delete its copy has a copy strictly nearer behind it, after every step of anyone |
| NoLoss.KeysStay | cluster/event_handler.go:107-138 | from any reachable state, along any run with overlapping joins, leaves and failures, an untied key stays held, and its nearest holder never gets further away |
| NoLoss.SafeIffUntied | cluster/event_handler.go:107-138 | a key is kept in every run from every reachable state if and only if no two nodes are equally near to it, or remote nodes refuse it anyway |
| NoLoss.SwapLosesKey | cluster/event_handler.go:110-135 | for any two nodes tied on a key there is a reachable state that holds it and a run that loses it |
| NoLoss.HopsGetNearer | cluster/event_handler.go:110-133 | every hand-off of a run goes to a strictly nearer node, whatever the views |
| NoLoss.ChainsEnd | cluster/event_handler.go:110-133 | a chain of hand-offs visits no node twice, so a key makes fewer hops than there are nodes |
| NoLoss.ValuesAreGenuine | cluster/event_handler.go:124-130 | in every run, each copy stored or on its way is a value some client wrote for that key |
| ClientWrites.WriteSurvivesIff | cluster/event_handler.go:124-135 | when no other node is handing the key over, and of the others only the nearest may have a copy, an older one: a client's write survives every run that goes on from there if and only if the node is neither sending an older value of the key away nor about to delete its copy after it has arrived |
| Placement.PlacedIffAtMostOneRival | cluster/event_handler.go:61-140 | any number of nodes join a settled cluster at once: a key ends at its owner, in every view, in every interleaving, if and only if one node in all is nearest to it and at most one of the joiners is as near as the node that has it |
| Misplacement.Misplaces | cluster/event_handler.go:108-138 | if a joiner is as near to a key as its home, and another node as near as that joiner, there is a run, without failures and with everybody knowing everybody in the end, that leaves the key at that joiner, which takes itself not for the owner |
| Placement.SettlesIffFavourable | cluster/event_handler.go:61-140 | the cluster is settled on members and joiners after every interleaving if and only if for every stored key at most one joiner is as near as its home, and that one is nearer |
| Placement.JoinsKeepCells | cluster/event_handler.go:61-140 | then it holds the same keys as before and no other cells, and exactly the same cell of each key that one node had |
| Placement.OneJoinSettles | cluster/event_handler.go:61-140 | a single join settles the cluster in every interleaving if and only if the joiner ties with the home of no stored key |
| Misplacement.TiedNeverPlaced | consistent_hash_ring/index.go:88-93 | a key for which a joiner ties with another nearest node is at no agreed owner after any interleaving |
| Placement.JoinersKeepKeys | cluster/event_handler.go:110-115 | where every key has one place to go, no joiner ever sends a key away |
| Repair.NextJoinRepairs | cluster/event_handler.go:107-138 | wherever earlier joins left a key, in how many places and with whatever cells: after the next join of one node, in every interleaving, it is at its owner and nowhere else, with one of these cells, if one node is nearest to it |
| Repair.NextJoinSettles | cluster/event_handler.go:107-138 | so that join settles the whole cluster |
| Repair.JoinsRest | cluster/event_handler.go:61-140 | any joins of a settled cluster lead to a state from which the next one does so |
| JoinBound.JoinsEnd | cluster/event_handler.go:61-140 | from every state that can arise, misplaced keys or not: if no two nodes tie for a stored key, no undisturbed run is longer than the work counted in that state |
| JoinBound.PeacefulJoinsEnd | cluster/event_handler.go:61-140 | the same bound for gatherings in which every key has one place to go, whatever ties there are behind |
| JoinBound.IdleWork | cluster/event_handler.go:61-140 | with no loop running, that is at most N * N * (8 * K + 2) steps for N nodes and K keys |
| Livelock.JoinsEndIffUntied | cluster/event_handler.go:107-138 | from every reachable state storing no other keys there is a bound on undisturbed runs, if and only if no two nodes tie for one of these keys, or remote nodes refuse that key; two that tie hand it back and forth as long as their loops see what arrives |
| JoinProgress.JoinsComplete | cluster/event_handler.go:61-140 | from every state that joins, leaves, writes and failures can lead to, undisturbed steps lead on to one where all loops are done and everybody knows everybody |
| TransferLoop.LoopConserves | cluster/event_handler.go:107-138 | wherever the loop stops: the cells before are exactly those kept and those sent, and none is both |
| TransferLoop.LoopSendsForeignKeys | cluster/event_handler.go:110-133 | what the loop sends is owned by another node of the pool and acceptable there |
| TransferLoop.LoopLeavesOwnKeysIff | cluster/event_handler.go:107-138 | if nothing fails, the loop leaves exactly the keys the node owns, in whatever order it visits them, if and only if the owners of all others are in the pool and accept them |
| TransferLoop.LoopStopsAtUndeliverable | cluster/event_handler.go:107-135 | exactly what is left if there is such a key: all but the foreign keys visited before the first of them, so that met first it strands all others |
| TransferLoop.LoopEndsAtFirstFailure | cluster/event_handler.go:107-138 | for every order and every behaviour of the network: what is left is exactly all but the foreign keys visited before the first turn that fails, because the owner is not in the pool, does not accept, cannot be dialled or does not answer |
| TransferLoop.NetworkLoopEnds | cluster/event_handler.go:107-138 | the same with each connection dialled when it is first asked for; and which connections have been dialled in the end, and how that went |
| EventDelegate.Handler.NotifyJoin | cluster/event_handler.go:61-140 | a call ignores the node itself, panics exactly for a listed node, and otherwise adds it to ring and pool; without metadata that parses, that is all; else, for every iteration order and every behaviour of the network, all is left but the foreign keys visited before the first failing turn, with the connections as they were dialled up to there |
| TransferLoop.JoinHandsOverAllIff | cluster/event_handler.go:97-138 | if the network carries everything and no connection from before the call is broken, a call leaves exactly the keys the node owns if and only if all others can be delivered |
| EventDelegate.Handler.NotifyLeave | cluster/event_handler.go:143-164 | a call ignores the node itself, panics exactly for an unknown node, and otherwise removes it from ring and pool and leaves the store and the other connections alone |
| EventDelegate.NotifyJoinIsRun | cluster/event_handler.go:61-140 | every call of the handler is a run of the state machine, so what is proved of runs is true of it |
| Deliveries.DeliveryEnds | cluster/event_handler.go:126-135 | the receiver has the pair as it was sent exactly if it accepts it and the call reaches it, whether or not the sender learns of it; the sender goes on, to delete its copy, exactly if it learns of success |
| Deliveries.FailedWriteEndsLoop | cluster/event_handler.go:126-133 | after a remote write that failed, or was reported as failed, the sender sends nothing more and keeps all it has, in every run without another join there |
| Deliveries.NoLoopWithoutMetadata | cluster/event_handler.go:81-95 | so it is after a join whose metadata does not parse |
| Deliveries.UnreachableEndsLoop | cluster/event_handler.go:118-122 | and after a visit that finds no connection to the key's owner |
| Pools.PoolsFollowViews | cluster/event_handler.go:76-105 | over every run, from the start, of events with addresses, each pool names exactly the other nodes of the ring |
| Pools.RemoteOwnerInPool | cluster/grpc_pool.go:68-73 | so an owner other than the node itself is found in the pool |
| Membership.LeaveKeepsSettled | cluster/event_handler.go:143-164 | once all others have heard, in whatever order, that a node left, the rest of a settled cluster is settled with no transfer, ties included |
| Membership.NextJoinsBegin | cluster/membership.go:85-87 | a settled cluster and any number of fresh nodes are ready for the next joins |
| Membership.FirstNodeSettled | cluster/membership.go:85-87 | a single fresh node is a settled cluster |
| NoEvictionStorage.Storage.Write | storage/no_eviction.go:39-43 | stores hash and value of the key and changes no other |
| NoEvictionStorage.Storage.Read | storage/no_eviction.go:28-37 | the stored value, or nil |
| NoEvictionStorage.Storage.Delete | storage/no_eviction.go:21-25 | removes the key and nothing else |
| FifoStorage.Storage.Write | storage/fifo.go:40-72 | maps, order slice and counter together behave as one sequence of entries to which the functional write is applied, and the counter is exact again |
| FifoStorage.Storage.Delete | storage/fifo.go:75-91 | removes the key's entry from maps, order and counter, and nothing else |
| FifoStorage.Storage.Read | storage/fifo.go:29-37 | the entry's value, or nil |
| FifoStorage.Storage.ListKeys | storage/fifo.go:94-96 | exactly the stored keys, with their hashes |
| Eviction.EvictionIsMinimal | storage/fifo.go:46-69 | of the other entries followed by the new one, a write keeps the longest suffix that fits, and evicts none that need not go |
| Eviction.ReadableIffFits | storage/fifo.go:55-69 | a value is readable after its write if and only if it alone fits; one that does not fit empties the store |
| CacheTheory.FifoRetains | storage/fifo.go:61-69 | a value stays readable until its key is written or deleted, or the bytes written since no longer fit beside it |
| LinkedList.List.MoveToFront | storage/lru.go:81 | relinking the element in place moves it to the front and leaves the others in order, the ring of pointers intact |
| LinkedList.List.Remove | storage/lru.go:96 | relinking takes exactly the element out, the ring of pointers intact |
| LruStorage.Storage.Read | storage/lru.go:54-70 | the entry's value or nil; the key is queued for promotion exactly if it is stored and fewer than 512 are waiting |
| LruStorage.Storage.Write | storage/lru.go:73-101 | the heap of entries, list and map behaves as one sequence with the functional write applied; list and map stay in one-to-one correspondence, the counter exact |
| LruStorage.Storage.Delete | storage/lru.go:104-115 | removes the key's entry from list, map and counter, and nothing else |
| LruStorage.Storage.PromoteNext | storage/lru.go:43-51 | the oldest queued read moves its entry to the front; for a key no longer there nothing happens |
| LruStorage.Storage.ListKeys | storage/lru.go:118-128 | walking the list yields exactly the stored keys with their hashes |
| CacheTheory.PromoteFacts | storage/lru.go:44-50 | a promotion changes the order only, and nothing at all for a missing key |
| CacheTheory.LruReadableIffFits | storage/lru.go:88-98 | in the LRU store, too, a value is readable after its write if and only if it alone fits |
| CacheTheory.FifoIsReverseOfLru | storage/lru.go:73-115 | on every run without promotions, the LRU list is the reverse of the FIFO order, entry for entry, with equal byte counts |
| CacheTheory.FifoCoherent | storage/fifo.go:40-91 | on every run, FIFO holds a part of what the plain store holds, and all of it if that has always fitted |
| CacheTheory.LruCoherent | storage/lru.go:43-115 | the same for LRU, in every interleaving of reads and promotions |
| CacheTheory.ListIsSortedByTouch | storage/lru.go:43-101 | in every interleaving, the list is ordered by the last write or applied promotion of each key |
| CacheTheory.LruIsExactIfPromoterKeepsUp | storage/lru.go:43-101 | if no write happens while reads are queued and no read finds the queue full, the store is an exact LRU cache, short of queued reads |
| CacheTheory.MissIsInvisible | storage/lru.go:54-67 | a read that misses, or finds 512 waiting, is invisible: after every continuation, list and queue are as without it |
| CacheTheory.QueuedWereStored | storage/lru.go:54-67 | whatever waits for promotion was stored when it was read, and waits in the order of the reads, never more than 512 |
| LruLoss.ReadLostIff | storage/lru.go:63-98 | for every list, entry and write: the entry is evicted if its read is not applied before the write, and kept if it is, if and only if it fits beside the entry written, but not together with all that is in front of it |
| LruLoss.WriteLosesIff | storage/lru.go:63-98 | after any run at all: exactly when a write loses the entry of a key that an exact LRU cache keeps |
| LruLoss.LostIff | storage/lru.go:63-98 | while the promoter keeps up, whatever is queued: exactly if the entry fits behind what is in front of it in the exact order, but not behind what is in front of it in the list |
| LruLoss.OvertakenReadLostIff | storage/lru.go:63-98 | of the entry read last, with any reads queued before: exactly if it fits beside the entry written, but not behind what is in front of it in the list |
| LruLoss.DroppedReadLostIff | storage/lru.go:63-98 | the same for a read that finds the queue full and is dropped, however many of the queued reads are applied before the write |
| LruLoss.DroppedReadExactIff | storage/lru.go:63-67 | a read dropped at a full queue leaves the store exact if and only if its entry is in front anyway |
| LruLoss.OvertakingExactIff | storage/lru.go:43-98 | a write that overtakes queued reads leaves the store exact, short of these, if and only if the entry written does not fit at all, or the same entries are left and the last queued one among them, if any, is the one written |
| LruLoss.ReadsFillQueue | storage/lru.go:36 | reads alone fill the queue of 512 while the promoter keeps up, so full queues occur |
| LruLoss.LruRetains | storage/lru.go:88-98 | a value stays readable until its key is written or deleted, or the bytes of the entries written and promoted since no longer fit beside it |
| GrpcServer.Server.Read | grpc_server/index.go:27-45 | in front of each of the three stores as they are updated in place, heap and all, a remote read answers, and does to the store, what the function on the store's value says |
| GrpcServer.Server.Write | grpc_server/index.go:47-69 | the same for a remote write |
| GrpcServer.RemoteReadAnswers | grpc_server/index.go:27-45 | an empty key is an invalid argument, a missing one not found, and any other is answered with its value in one chunk |
| GrpcServer.RemoteRoundTrip | grpc_server/index.go:27-69 | a remote write is accepted exactly for a pair without empty parts; after it the store holds value and hash, and a remote read answers the value, exactly if it fits; a refused pair is an invalid argument and changes nothing |
| Routing.JoinedBytes | http_server/index.go:171-174 | joining chunks yields all bytes in order, and nil exactly if there are none |
| Routing.JoinChunks | http_server/index.go:171-174 | the loop over the chunks computes that joining |
| Routing.Answers | http_server/index.go:98-275 | the answer to every request in every state: bad request exactly without a key; a GET fails exactly if the owner is not connected; a DELETE is accepted at the owner alone |
| Routing.ServedStore | http_server/index.go:98-275 | what a request does to each store: its operation at the one it is routed to, if it arrives there, and nothing else; and exactly when it arrives |
| Routing.GetAnswersOwner | http_server/index.go:98-183 | at any server, a GET answers what the owner's store has, except that an empty value seems missing from elsewhere |
| Routing.PostReachesOwner | http_server/index.go:186-254 | a POST at any server reaches the owner's store unless the remote write refuses it, and is there, under the hash of its key, exactly if it fits |
| Routing.DeleteWorksAtOwner | http_server/index.go:257-275 | a DELETE is accepted at the owner alone, after which no server finds the key; elsewhere it is not supported and changes nothing |
| Routing.AcceptedIsNotStored | http_server/index.go:193-210 | the answer to a POST says nothing about the write: it is accepted even where the owner refuses the value |
| Routing.ReadYourWrite | http_server/index.go:77-250 | once a POST of a non-empty value under a non-zero hash has arrived, GETs at any server answer it, after any number of requests that leave it alone and of promotions at any server, for each kind of store |
| Recency.GetCountsAsUse | http_server/index.go:98-155 | a GET at any server is a use at the owner: once the promoter has worked off what waited, a POST of another key costs the key its place exactly if it arrives there and the two values do not fit together; else every server still finds it |
| Routing.ReadBackIff | http_server/index.go:98-250 | for a key not yet stored: exactly when a POST at one server can be read back at another |
| EndToEnd.SettledFinds | http_server/index.go:98-131 | in a settled cluster a GET of any stored key with one nearest node answers its value, at any node |
| EndToEnd.JoinsLoseNothing | cluster/event_handler.go:61-140 | after undisturbed joins of any number of nodes, in any interleaving, a key with one nearest node and at most one joiner as near as its home is answered at every node, the joiners included, with a value it had before |

## Left out

- Placement.PlacedIffAtMostOneRival: nothing fails, no client writes or leaves happen during the joins, and metadata parses; what failures can do is bounded by NoLoss.
- Repair.NextJoinRepairs: one node joins, and the others know each other; several at once can misplace keys again, as PlacedIffAtMostOneRival says.
- Livelock.JoinsEndIffUntied: an iteration over a map may or may not produce a key that is put in meanwhile, as Go's specification has it; how long a given runtime goes on doing so is open.
- ClientWrites.WriteSurvivesIff: of other nodes, only the nearest of all may have the key, and not this very cell already; where others are handing it over too, NoLoss.KeysStay says that some copy stays.
- NoLoss.KeysStay: stores evict nothing and clients delete nothing, since either removes keys on purpose; a leaving node's own data is not covered, because the code does not save it.
- Pools.PoolsFollowViews: events carry addresses; a metadata address that is empty leaves the node in the ring but not in the pool.
- Routing.ReadYourWrite: each POST has arrived before the next request; the order in which concurrent POSTs to one key arrive is open in the code. In an evicting store, other writes to the same owner are excluded; FifoRetains bounds what they can do.
- CacheTheory.LruIsExactIfPromoterKeepsUp: one direction for whole runs, since a store that was inexact can become exact again when the entries concerned are deleted or evicted; of the first step at which the promoter falls behind, OvertakingExactIff and DroppedReadExactIff say exactly when the store stays exact, and WriteLosesIff says of every run and write when an entry is lost.
- EventDelegate.Handler.NotifyJoin: the call runs undisturbed and over a non-evicting store; other nodes' steps and client writes in between are in Protocol, where a key that arrives while a loop is running may or may not be visited.
- Routing: requests are functions on the servers' state rather than HTTP handlers; the stores behind them are values, to which GrpcServer ties the stores' classes.
- Gossip: memberlist is an environment that delivers to each node, one at a time, a join for a node it does not list or a leave for one it does.
- Dialling, deadlines, cancelled contexts and lost replies: a remote write is done, refused, or done but reported as failed.
- Node metadata in JSON: it parses or it does not.
- xxhash: any function from strings to 64-bit hashes.
- Unlocked reads and live maps handed out by ListKeys: each store call is one step, so data races are not part of this model.
- Slices shared with callers of GetNodes: the ring's arrays are its own.
- The width of Go's int in sizes and counters: unbounded here; hashes are 64 bits.
- Elements of a Go list carry a pointer to their list, which MoveToFront and Remove check: an element is in the one list there is.
- Logging, configuration, the main program, health and cluster endpoints, HTTP status texts, deployment: no property beyond their code.
