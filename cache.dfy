/** The package-level state of pkg/cache/client.go and the operations on
    it: `InitializeNodes`, `GetClientForKey` and `GetNodeAndUpdateLastUse`. */
module Cache {
  import opened GoTypes
  import opened Sorting
  import opened HashRing

  /** A `time.Time` instant; the clock itself is a parameter of the model. */
  type Time = int

  /** `CacheItem`: a stored value (never set by this package) and the time
      of the last lookup of its key. */
  datatype CacheItem = CacheItem(value: GoString, lastUsed: Time)

  /** A `*redis.Client`, standing for the connection to one address; the
      connection itself is outside the model. */
  datatype Client = Client(addr: GoString)

  /** A possibly-nil `*redis.Client`. */
  datatype Option<T> = None | Some(value: T)

  const Europe: GoString := Ascii("Europe")
  const Asia: GoString := Ascii("Asia")
  const NorthAmerica: GoString := Ascii("NorthAmerica")
  const Regions: set<GoString> := {Europe, Asia, NorthAmerica}

  /** Replicas per node in the ring `InitializeNodes` builds. */
  const DefaultReplicas: int := 100

  /** The three Redis clients `InitializeNodes` creates, by region. */
  function RegionClients(): (m: map<GoString, Client>)
    ensures m.Keys == Regions
  {
    map[Europe := Client(Ascii("localhost:6379")),
        Asia := Client(Ascii("localhost:6380")),
        NorthAmerica := Client(Ascii("localhost:6381"))]
  }

  /** The access record after a lookup of `key` at time `now`: the key's
      entry gets `lastUsed == now`, an existing value is kept, a new entry
      has the empty value, and nothing else changes. */
  function Touch(items: map<GoString, CacheItem>, key: GoString, now: Time): (r: map<GoString, CacheItem>)
    ensures r.Keys == items.Keys + {key}
    ensures r[key].lastUsed == now
    ensures r[key].value == if key in items then items[key].value else []
    ensures forall k | k in items && k != key :: r[k] == items[k]
  {
    if key in items then items[key := items[key].(lastUsed := now)] else items[key := CacheItem([], now)]
  }

  /** Repeated lookups of one key keep a single record, stamped with the
      latest time. */
  lemma TouchTwice(items: map<GoString, CacheItem>, key: GoString, t1: Time, t2: Time)
    ensures Touch(Touch(items, key, t1), key, t2) == Touch(items, key, t2)
  {
  }

  /** Lookups of different keys touch disjoint records, so their order
      does not matter. */
  lemma TouchCommutes(items: map<GoString, CacheItem>, k1: GoString, k2: GoString, t1: Time, t2: Time)
    requires k1 != k2
    ensures Touch(Touch(items, k1, t1), k2, t2) == Touch(Touch(items, k2, t2), k1, t1)
  {
  }

  /** The client `GetClientForKey(key, userRegion)` returns, given the
      registered clients and the ring: the client of the caller's region
      when that region is registered, whatever the ring chose; otherwise the
      client of the ring's node, or nil when that node is not registered. */
  function ClientForKey(redisNodes: map<GoString, Client>, hashMap: map<uint32, GoString>,
                        sortedHashes: seq<uint32>, key: GoString, userRegion: GoString): Option<Client>
    requires RingInvariant(hashMap, sortedHashes)
  {
    var node := Owner(hashMap, sortedHashes, key);
    if userRegion in redisNodes then Some(redisNodes[userRegion])
    else if node in redisNodes then Some(redisNodes[node])
    else None
  }

  /** Region affinity: a registered region overrides the ring's choice. */
  lemma RegionOverridesRing(redisNodes: map<GoString, Client>, hashMap: map<uint32, GoString>,
                            sortedHashes: seq<uint32>, key: GoString, userRegion: GoString)
    requires RingInvariant(hashMap, sortedHashes)
    requires userRegion in redisNodes
    ensures ClientForKey(redisNodes, hashMap, sortedHashes, key, userRegion) == Some(redisNodes[userRegion])
  {
  }

  /** An unregistered region falls back to the ring's node, and when every
      node of a non-empty ring is registered that is never nil. */
  lemma UnknownRegionUsesRing(redisNodes: map<GoString, Client>, hashMap: map<uint32, GoString>,
                              sortedHashes: seq<uint32>, key: GoString, userRegion: GoString)
    requires RingInvariant(hashMap, sortedHashes)
    requires userRegion !in redisNodes
    requires |hashMap| > 0 && hashMap.Values <= redisNodes.Keys
    ensures var node := Owner(hashMap, sortedHashes, key);
            node in redisNodes && ClientForKey(redisNodes, hashMap, sortedHashes, key, userRegion) == Some(redisNodes[node])
  {
    OwnerIsRingNode(hashMap, sortedHashes, key);
  }

  lemma RegionsDistinct()
    ensures Europe != Asia && Europe != NorthAmerica && Asia != NorthAmerica
  {
    assert |Europe| == 6 && |Asia| == 4 && |NorthAmerica| == 12;
  }

  /** The points of the regions already added to the ring, that is, those
      no longer in `unvisited`. */
  ghost function AddedPoints(unvisited: set<GoString>): multiset<uint32> {
    (if Europe in unvisited then multiset{} else multiset(VirtualHashes(Europe, DefaultReplicas)))
    + (if Asia in unvisited then multiset{} else multiset(VirtualHashes(Asia, DefaultReplicas)))
    + (if NorthAmerica in unvisited then multiset{} else multiset(VirtualHashes(NorthAmerica, DefaultReplicas)))
  }

  lemma AddedPointsStep(unvisited: set<GoString>, node: GoString)
    requires node in unvisited && node in Regions
    ensures AddedPoints(unvisited - {node}) == AddedPoints(unvisited) + multiset(VirtualHashes(node, DefaultReplicas))
  {
    RegionsDistinct();
  }

  /** The ring after `InitializeNodes` holds the points of all three regions,
      in whatever order they were added. */
  lemma AllPointsAdded(sortedHashes: seq<uint32>)
    requires Sorted(sortedHashes) && multiset(sortedHashes) == AddedPoints({})
    ensures sortedHashes == SortAsc(AllRegionPoints())
    ensures |sortedHashes| == 300
  {
    SortedPermutationUnique(sortedHashes, SortAsc(AllRegionPoints()));
  }

  /** The virtual points of Europe, Asia and NorthAmerica, in that order. */
  function AllRegionPoints(): seq<uint32> {
    VirtualHashes(Europe, DefaultReplicas) + VirtualHashes(Asia, DefaultReplicas) + VirtualHashes(NorthAmerica, DefaultReplicas)
  }

  /** `h` is a virtual point of region `r` and of no other region, so only
      `AddNode(r)` ever writes it. */
  ghost predicate OnlyPointOf(h: uint32, r: GoString) {
    && r in Regions
    && h in VirtualHashes(r, DefaultReplicas)
    && forall o | o in Regions && o != r :: h !in VirtualHashes(o, DefaultReplicas)
  }

  /** Who owns what in a ring built from the regions in `added`: every
      point is owned by an added region that generates it, and an added
      region owns every point that no other region generates. */
  ghost predicate OwnersOfRegions(m: map<uint32, GoString>, added: set<GoString>) {
    && (forall h | h in m :: m[h] in added && h in VirtualHashes(m[h], DefaultReplicas))
    && (forall r, h | r in added && OnlyPointOf(h, r) :: h in m && m[h] == r)
  }

  /** `AddNode` of one more region keeps the owners of the points it does
      not generate and owns the points it generates. */
  lemma ClaimRegion(m: map<uint32, GoString>, unvisited: set<GoString>, node: GoString)
    requires node in unvisited && unvisited <= Regions
    requires OwnersOfRegions(m, Regions - unvisited)
    ensures OwnersOfRegions(Claim(m, VirtualHashes(node, DefaultReplicas), node), Regions - (unvisited - {node}))
  {
    var hs := VirtualHashes(node, DefaultReplicas);
    var m' := Claim(m, hs, node);
    assert Regions - (unvisited - {node}) == (Regions - unvisited) + {node};
    forall r, h | r in Regions - (unvisited - {node}) && OnlyPointOf(h, r) ensures h in m' && m'[h] == r {
      if r != node {
        assert h !in hs;
      }
    }
  }

  /** Once every point of a non-empty ring belongs to a registered region,
      every key lands in a region and `GetClientForKey` never yields nil. */
  lemma RoutesEverywhere(redisNodes: map<GoString, Client>, hashMap: map<uint32, GoString>, sortedHashes: seq<uint32>)
    requires RingInvariant(hashMap, sortedHashes)
    requires |sortedHashes| > 0 && hashMap.Values <= redisNodes.Keys
    ensures forall key :: Owner(hashMap, sortedHashes, key) in redisNodes
    ensures forall key, region :: ClientForKey(redisNodes, hashMap, sortedHashes, key, region).Some?
  {
    NonEmptyRing(hashMap, sortedHashes);
    forall key ensures Owner(hashMap, sortedHashes, key) in redisNodes {
      OwnerIsRingNode(hashMap, sortedHashes, key);
    }
  }

  /** The package-level variables `hashRing`, `redisNodes` and `cacheItems`. */
  class Globals {
    var hashRing: ConsistentHash?
    var redisNodes: map<GoString, Client>
    var cacheItems: map<GoString, CacheItem>

    /** The package as loaded: no ring, no clients, no access records. */
    constructor ()
      ensures hashRing == null && redisNodes == map[] && cacheItems == map[]
    {
      hashRing := null;
      redisNodes := map[];
      cacheItems := map[];
    }

    /** `InitializeNodes`: registers one client per region and builds a
        fresh ring of 100 replicas per region, adding the regions in map
        iteration order (any order). The access records are kept. */
    method InitializeNodes()
      modifies this
      ensures redisNodes == RegionClients() && cacheItems == old(cacheItems)
      ensures hashRing != null && fresh(hashRing) && hashRing.Valid()
      ensures hashRing.replicas == DefaultReplicas && hashRing.Nodes == Regions
      ensures OwnersOfRegions(hashRing.hashMap, Regions)
      ensures hashRing.sortedHashes == SortAsc(AllRegionPoints())
      ensures |hashRing.sortedHashes| == 300
      ensures forall key :: Owner(hashRing.hashMap, hashRing.sortedHashes, key) in redisNodes
      ensures forall key, region :: ClientForKey(redisNodes, hashRing.hashMap, hashRing.sortedHashes, key, region).Some?
    {
      redisNodes := RegionClients();
      hashRing := new ConsistentHash(DefaultReplicas);
      var unvisited := redisNodes.Keys;
      assert AddedPoints(unvisited) == multiset{};
      while unvisited != {}
        invariant hashRing != null && fresh(hashRing) && hashRing.Valid()
        invariant redisNodes == RegionClients() && cacheItems == old(cacheItems)
        invariant hashRing.replicas == DefaultReplicas
        invariant unvisited <= Regions && hashRing.Nodes == Regions - unvisited
        invariant multiset(hashRing.sortedHashes) == AddedPoints(unvisited)
        invariant OwnersOfRegions(hashRing.hashMap, Regions - unvisited)
        decreases unvisited
      {
        var node :| node in unvisited;
        ghost var before := multiset(hashRing.sortedHashes);
        ghost var owners := hashRing.hashMap;
        hashRing.AddNode(node);
        ClaimRegion(owners, unvisited, node);
        assert multiset(hashRing.sortedHashes) == before + multiset(VirtualHashes(node, DefaultReplicas));
        AddedPointsStep(unvisited, node);
        unvisited := unvisited - {node};
      }
      assert hashRing.Nodes == Regions - {} == Regions;
      AllPointsAdded(hashRing.sortedHashes);
      RoutesEverywhere(redisNodes, hashRing.hashMap, hashRing.sortedHashes);
    }

    /** `GetNodeAndUpdateLastUse(key)`: the ring's node for the key, with
        the key's access record stamped `now`. The ring is only read. */
    method GetNodeAndUpdateLastUse(ch: ConsistentHash, key: GoString, now: Time) returns (node: GoString)
      requires ch.Valid()
      modifies this`cacheItems
      ensures node == Owner(ch.hashMap, ch.sortedHashes, key)
      ensures |ch.hashMap| > 0 ==> node in ch.Nodes
      ensures cacheItems == Touch(old(cacheItems), key, now)
    {
      node := ch.GetNode(key);
      if key in cacheItems {
        var item := cacheItems[key];
        item := item.(lastUsed := now);
        cacheItems := cacheItems[key := item];
      } else {
        cacheItems := cacheItems[key := CacheItem([], now)];
      }
    }

    /** `GetClientForKey(key, userRegion)`: asks the ring (recording the
        access), then prefers the caller's region when it is registered.
        The scan of `redisNodes` always finds that region, so both of its
        exits return the same client. Before `InitializeNodes` the ring is
        nil and Go panics; that is excluded here. */
    method GetClientForKey(key: GoString, userRegion: GoString, now: Time) returns (client: Option<Client>)
      requires hashRing != null && hashRing.Valid()
      modifies this`cacheItems
      ensures cacheItems == Touch(old(cacheItems), key, now)
      ensures client == ClientForKey(redisNodes, hashRing.hashMap, hashRing.sortedHashes, key, userRegion)
      ensures |hashRing.hashMap| > 0 && hashRing.hashMap.Values <= redisNodes.Keys ==> client.Some?
    {
      if |hashRing.hashMap| > 0 && hashRing.hashMap.Values <= redisNodes.Keys {
        NonEmptyRing(hashRing.hashMap, hashRing.sortedHashes);
        RoutesEverywhere(redisNodes, hashRing.hashMap, hashRing.sortedHashes);
      }
      var node := GetNodeAndUpdateLastUse(hashRing, key, now);
      if userRegion in redisNodes {
        var regional := redisNodes[userRegion];
        if node == userRegion {
          return Some(regional);
        }
        var unvisited := redisNodes.Keys;
        while unvisited != {}
          invariant userRegion in unvisited && unvisited <= redisNodes.Keys
          decreases unvisited
        {
          var k :| k in unvisited;
          if k == userRegion {
            return Some(redisNodes[k]);
          }
          unvisited := unvisited - {k};
        }
      }
      client := if node in redisNodes then Some(redisNodes[node]) else None;
    }
  }
}
