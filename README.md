# Consistent-hash routing for a regional Redis cache, in Dafny

This project models the routing core of a sharded Redis cache written in Go
(`pkg/cache/client.go`), and proves properties of that model.

The Go package keeps three package-level variables:

- `hashRing` is a consistent-hash ring. Each node generates 100 virtual points.
  Each point is the 32-bit FNV-1a hash of `"<node>:<i>"`.
- `redisNodes` maps each region name to its Redis client.
- `cacheItems` records when each key was last looked up.

`InitializeNodes` registers the regions Europe, Asia and NorthAmerica and
builds the ring. `GetClientForKey(key, region)` asks the ring which node owns
the key and records the access. It then returns the client of the caller's
region whenever that region is registered, and the ring node's client
otherwise.

Modules, leaf first:

- `GoTypes` (`gotypes.dfy`): Go's `byte` and `uint32`, strings as byte
  sequences, and `%d` formatting with its inverse.
- `Fnv` (`fnv.dfy`): FNV-1a 32-bit over `bv32`, so the multiplication wraps
  modulo 2^32 as Go's `uint32` does.
- `Sorting` (`sorting.dfy`): what `sort.Slice` leaves in a `[]uint32`, and the
  bisection loop of `sort.Search`.
- `HashRing` (`hashring.dfy`): the class `ConsistentHash` with `AddNode` and
  `GetNode`. Beside it sit the specification functions `Successor` and
  `Owner` and the lemmas about them.
- `Cache` (`cache.dfy`): the package variables as the class `Globals`, with
  `InitializeNodes`, `GetNodeAndUpdateLastUse` and `GetClientForKey`. Beside
  them sit the specification functions `Touch` and `ClientForKey`.

Modelling choices:

- A Go string is its bytes (`seq<bv8>`). Region names and addresses are ASCII
  literals.
- A `*redis.Client` is a token `Client(addr)`. A nil client is `None`.
- `time.Now()` is the parameter `now`.
- Go's map iteration order is an arbitrary choice (`:|`). This applies in
  `InitializeNodes` and in the scan at lines 109-113.
- `AddNode` calls `sort.Slice`. The model writes that call as the pure
  function `SortAsc`. `SortedPermutationUnique` shows that every sorting
  algorithm gives the same result on `uint32` values, so the choice of
  algorithm does not matter.
- `GetNode` calls `sort.Search`. The model keeps Go's bisection loop
  (`Sorting.Search`) and proves that it returns the index that the linear
  definition `FirstAtLeast` gives.

Behaviour of the code that the model keeps as it is:

- Before `InitializeNodes`, `GetClientForKey` dereferences a nil ring and Go
  panics. The model makes this the precondition `hashRing != null`.
- On an empty ring `GetNode` returns `""`, and `redisNodes[""]` is a nil
  client. The model returns `None` there.
- When the caller's region is registered, `GetClientForKey` returns that
  region's client whatever node the ring chose (lines 104-113).
- `InitializeNodes` replaces the registry and the ring on every call. It does
  not touch `cacheItems`.
- `GetNode` returns `""` both on an empty ring and for a point owned by a node
  named `""`. `OwnerEmptyIff` therefore assumes that no node has an empty name.

## Model

| member | source | states |
|---|---|---|
| GoTypes.Decimal | pkg/cache/client.go:47 | `%d` of a replica index is a non-empty run of decimal digits without a leading zero |
| GoTypes.ParseDecimalRoundTrip | pkg/cache/client.go:47 | reading back the `%d` text of n gives n |
| GoTypes.DecimalInjective | pkg/cache/client.go:47 | distinct replica indices format to distinct text |
| Fnv.Sum32a | pkg/cache/client.go:74-76 | `fnv.New32a()`, one `Write` and `Sum32()`: the left fold of xor-then-multiply rounds from the offset basis; fixed by `Sum32aEmpty`, `Sum32aSnoc` and `TestVectorA` |
| Fnv.FoldConcat | pkg/cache/client.go:73-77 | hashing a + b equals continuing the FNV-1a state of a over b, as with two `Write` calls |
| Fnv.Sum32aSnoc | pkg/cache/client.go:73-77 | each byte is xor-ed into the state, then the state is multiplied by 16777619 mod 2^32 |
| Fnv.Sum32aEmpty | pkg/cache/client.go:73-77 | the empty string hashes to the offset basis 2166136261 |
| Fnv.TestVectorA | pkg/cache/client.go:73-77 | the hash agrees with the published FNV-1a vector for "a" (0xe40c292c) |
| Sorting.SortAsc | pkg/cache/client.go:51 | the re-sorted hash list is in non-decreasing order, has the same length, and is a permutation of the appended list |
| Sorting.SortedPermutationUnique | pkg/cache/client.go:51 | two sorted permutations of one multiset are equal, so any sort gives the same list |
| Sorting.SortAscOfSorted | pkg/cache/client.go:51 | sorting an already sorted list leaves it unchanged |
| Sorting.FirstAtLeast | pkg/cache/client.go:61-63 | the index `sort.Search` defines: every element before it is below h, and the element at it (if any) is at least h |
| Sorting.Search | pkg/cache/client.go:61-63 | the bisection loop over a sorted list returns exactly the least index whose hash is >= h, or the length |
| HashRing.HashKey | pkg/cache/client.go:73-77 | `hashKey`: the FNV-1a 32-bit hash of the key's bytes as a `uint32` |
| HashRing.VirtualKey | pkg/cache/client.go:47 | `"<node>:<i>"` with `%d` decimal text; `VirtualKeysDistinct` and `VirtualKeyInjective` show that it names each point uniquely |
| HashRing.VirtualHashes | pkg/cache/client.go:46-47 | one node contributes exactly `replicas` points, or none if `replicas` is not positive |
| HashRing.Claim | pkg/cache/client.go:48 | after the writes `hashMap[h] = node`, every written hash maps to node, other entries are unchanged, and the key set grows by the written hashes |
| HashRing.NonEmptyRing | pkg/cache/client.go:56-58 | under the ring invariant, `hashMap` is empty exactly when the hash list is empty |
| HashRing.AddPreservesInvariant | pkg/cache/client.go:45-52 | appending, claiming and re-sorting keep the list sorted and its elements equal to the map's keys |
| HashRing.Successor | pkg/cache/client.go:60-69 | the chosen slot is the first point at or after the hash, or slot 0 when the hash lies past every point |
| HashRing.Owner | pkg/cache/client.go:55-69 | what `GetNode` answers: "" on an empty ring, else the owner of the `Successor` slot; see `OwnerEmptyIff`, `OwnerIsRingNode` and `OwnerWrapsAround` |
| HashRing.SuccessorIsNearestClockwise | pkg/cache/client.go:60-69 | on a sorted ring, no point lies between the key's hash and its slot, and a wrapped lookup lands on the smallest point |
| HashRing.OwnerEmptyIff | pkg/cache/client.go:56-58 | with no node named "", `GetNode` returns "" if and only if the ring is empty |
| HashRing.OwnerIsRingNode | pkg/cache/client.go:69 | on a non-empty ring the answer is the owner of some point |
| HashRing.OwnerWrapsAround | pkg/cache/client.go:65-69 | a key hashing above every point goes to the owner of `sortedHashes[0]` |
| HashRing.VirtualKeysDistinct | pkg/cache/client.go:47 | the names `"<node>:<i>"` of one node's replicas are pairwise distinct |
| HashRing.VirtualKeyInjective | pkg/cache/client.go:47 | for node names without ':', a point's name determines the node and the replica index |
| HashRing.ConsistentHash.constructor | pkg/cache/client.go:36-42 | `NewConsistentHash` gives an empty, valid ring with the given replica count |
| HashRing.ConsistentHash.AddNode | pkg/cache/client.go:45-52 | the new list is the sorted old list plus the node's points, as a multiset union. Each point's hash maps to the node, with the later write winning. Every other entry and `replicas` are unchanged, and the ring invariant holds |
| HashRing.ConsistentHash.GetNode | pkg/cache/client.go:55-70 | returns `Owner(hashMap, sortedHashes, key)`, an added node when the ring is non-empty, and leaves the ring unchanged |
| Cache.RegionClients | pkg/cache/client.go:85-89 | exactly the three regions are registered |
| Cache.RegionsDistinct | pkg/cache/client.go:85-89 | the three region names are distinct |
| Cache.AddedPointsStep | pkg/cache/client.go:93-95 | adding one unvisited region adds exactly that region's 100 points |
| Cache.AllPointsAdded | pkg/cache/client.go:92-95 | once all regions are added, the ring is the sorted 300 points of the three regions, in any insertion order |
| Cache.ClaimRegion | pkg/cache/client.go:93-95 | adding one more region keeps the owner of every point that region does not generate, gives it every point it generates, and so keeps every point owned by a region that generates it |
| Cache.RoutesEverywhere | pkg/cache/client.go:99-116 | on a non-empty ring whose every node is registered, every key maps to a registered node, and `GetClientForKey` never yields nil |
| Cache.Touch | pkg/cache/client.go:122-129 | after a lookup, the key's record has `lastUsed == now` and keeps its value; a new record has the empty value; no other record changes and none is removed |
| Cache.TouchTwice | pkg/cache/client.go:122-129 | two lookups of one key leave one record, stamped with the later time |
| Cache.TouchCommutes | pkg/cache/client.go:120-131 | lookups of different keys commute |
| Cache.ClientForKey | pkg/cache/client.go:104-116 | the selection policy: the caller's client when its region is registered, else the ring node's client or nil; see `RegionOverridesRing` and `UnknownRegionUsesRing` |
| Cache.RegionOverridesRing | pkg/cache/client.go:104-113 | a registered caller region gets its own client, whatever node the ring chose |
| Cache.UnknownRegionUsesRing | pkg/cache/client.go:115-116 | an unregistered region gets the ring node's client, which is not nil when all ring nodes are registered |
| Cache.Globals.constructor | pkg/cache/client.go:14-20 | the package starts with no ring, no clients and no access records |
| Cache.Globals.InitializeNodes | pkg/cache/client.go:80-96 | registers the three clients and builds a fresh valid 100-replica ring over the three regions. Every point is owned by a region that generates it, and a point only one region generates is owned by that region, whatever the iteration order. Every key then lands in a registered region and routing never yields nil. Access records are kept |
| Cache.Globals.GetNodeAndUpdateLastUse | pkg/cache/client.go:120-131 | returns the ring's `Owner` for the key (an added node on a non-empty ring), leaves the ring untouched, and updates the access records to `Touch(old, key, now)` |
| Cache.Globals.GetClientForKey | pkg/cache/client.go:99-117 | returns `ClientForKey`. The scan at 109-113 always finds the caller's region, and the access is recorded. On a non-empty ring whose nodes are all registered the client is never nil |

## Left out

- `newRedisClient`, `Close`, `Cleanup` and `Context` (lines 134-155) are calls
  into the Redis client library and the network. A client is only a token
  carrying its address.
- The `sync.Mutex` in `InitializeNodes` and `Cleanup` is not modelled, nor is
  concurrent access to `cacheItems`. Everything is sequential.
- `time.Now()` is the parameter `now`. `CacheItem.Value` is carried, but the
  package never sets it.
- `replicas` and slice indices are unbounded integers, not Go's 64-bit `int`.
  The overflow-safe midpoint `int(uint(i+j) >> 1)` in `sort.Search` is written
  `(i + j) / 2`. The two agree for every slice that fits in memory.
- HashRing.ConsistentHash.GetNode: requires the ring invariant. A ring built by
  `NewConsistentHash` and `AddNode` always satisfies it.
- Cache.Globals.GetClientForKey: requires an initialised ring, because Go
  panics on a nil `hashRing`.
- Cache.Globals.InitializeNodes: when two regions generate the same point,
  the owner is the region added last, and that depends on map iteration order.
  The model proves only that such a point is owned by one of the regions that
  generate it.
- `pkg/book/service.go` is a read-through wrapper over Redis `Get`/`Set`.
  `cmd/main.go` is process wiring. `pkg/config/config.go` is flag parsing.
  None of them is part of this model.
