/** The consistent-hash ring of pkg/cache/client.go: `ConsistentHash`,
    `NewConsistentHash`, `AddNode`, `GetNode` and `hashKey`. */
module HashRing {
  import opened GoTypes
  import opened Fnv
  import opened Sorting

  /** `hashKey`: the FNV-1a 32-bit hash of the key's bytes, as a `uint32`. */
  function HashKey(key: GoString): uint32 {
    Sum32a(key) as int as uint32
  }

  /** `fmt.Sprintf("%s:%d", node, i)`: the name of the i-th virtual point of a node. */
  function VirtualKey(node: GoString, i: nat): GoString {
    node + [Colon] + Decimal(i)
  }

  /** The hashes `AddNode` appends for `node`, in loop order; a non-positive
      replica count runs the loop zero times. */
  function VirtualHashes(node: GoString, replicas: int): (hs: seq<uint32>)
    ensures |hs| == if replicas < 0 then 0 else replicas
  {
    seq(if replicas < 0 then 0 else replicas, i requires 0 <= i => HashKey(VirtualKey(node, i)))
  }

  /** The writes `hashMap[h] = node` for each h of `hs` in turn. */
  function Claim(m: map<uint32, GoString>, hs: seq<uint32>, node: GoString): (r: map<uint32, GoString>)
    ensures r.Keys == m.Keys + set h | h in hs
    ensures forall h | h in hs :: r[h] == node
    ensures forall h | h in m && h !in hs :: r[h] == m[h]
    ensures r.Values <= m.Values + {node}
    decreases |hs|
  {
    if hs == [] then
      m
    else
      var prefix := Claim(m, hs[..|hs| - 1], node);
      assert hs == hs[..|hs| - 1] + [hs[|hs| - 1]];
      prefix[hs[|hs| - 1] := node]
  }

  /** What `AddNode` keeps true of a ring: the hash list is sorted and holds
      exactly the hashes that have an owner. */
  ghost predicate RingInvariant(hashMap: map<uint32, GoString>, sortedHashes: seq<uint32>) {
    && Sorted(sortedHashes)
    && forall h :: h in hashMap <==> h in sortedHashes
  }

  lemma NonEmptyRing(hashMap: map<uint32, GoString>, sortedHashes: seq<uint32>)
    requires RingInvariant(hashMap, sortedHashes)
    ensures |hashMap| == 0 <==> |sortedHashes| == 0
  {
    if |hashMap| != 0 {
      var h :| h in hashMap;
      assert h in sortedHashes;
    }
    if |sortedHashes| != 0 {
      assert sortedHashes[0] in hashMap;
    }
  }

  /** The slot a hash lands on: the first point at or after it, wrapping to
      the first point of the ring when the hash lies past every point. */
  function Successor(sortedHashes: seq<uint32>, h: uint32): (j: nat)
    requires |sortedHashes| > 0
    ensures j < |sortedHashes|
    ensures (exists k | 0 <= k < |sortedHashes| :: sortedHashes[k] >= h) ==>
              sortedHashes[j] >= h && forall k | 0 <= k < j :: sortedHashes[k] < h
    ensures (forall k | 0 <= k < |sortedHashes| :: sortedHashes[k] < h) ==> j == 0
  {
    var i := FirstAtLeast(sortedHashes, h);
    if i == |sortedHashes| then 0 else i
  }

  /** The node `GetNode(key)` answers: "" on an empty ring, otherwise the
      owner of the key's successor point. */
  function Owner(hashMap: map<uint32, GoString>, sortedHashes: seq<uint32>, key: GoString): GoString
    requires RingInvariant(hashMap, sortedHashes)
  {
    NonEmptyRing(hashMap, sortedHashes);
    if |hashMap| == 0 then [] else hashMap[sortedHashes[Successor(sortedHashes, HashKey(key))]]
  }

  /** On a sorted ring the successor point is the nearest point clockwise:
      no point lies strictly between the key's hash and it, and when the
      search wraps it lands on the smallest point of all. */
  lemma SuccessorIsNearestClockwise(sortedHashes: seq<uint32>, h: uint32, k: nat)
    requires Sorted(sortedHashes) && k < |sortedHashes|
    ensures var j := Successor(sortedHashes, h);
            (sortedHashes[k] >= h ==> h <= sortedHashes[j] <= sortedHashes[k])
    ensures var j := Successor(sortedHashes, h);
            (sortedHashes[j] < h ==> j == 0 && sortedHashes[j] <= sortedHashes[k])
  {
    var j := Successor(sortedHashes, h);
    if sortedHashes[k] >= h {
      assert sortedHashes[j] >= h && forall i | 0 <= i < j :: sortedHashes[i] < h;
      assert j <= k;
    }
  }

  /** `GetNode` answers "" exactly when the ring is empty, provided no node
      was added under the empty name. */
  lemma OwnerEmptyIff(hashMap: map<uint32, GoString>, sortedHashes: seq<uint32>, key: GoString)
    requires RingInvariant(hashMap, sortedHashes)
    requires forall h | h in hashMap :: hashMap[h] != []
    ensures Owner(hashMap, sortedHashes, key) == [] <==> |hashMap| == 0
  {
    NonEmptyRing(hashMap, sortedHashes);
    if |hashMap| != 0 {
      var j := Successor(sortedHashes, HashKey(key));
      assert sortedHashes[j] in hashMap;
    }
  }

  /** On a non-empty ring the answer is always the owner of some point. */
  lemma OwnerIsRingNode(hashMap: map<uint32, GoString>, sortedHashes: seq<uint32>, key: GoString)
    requires RingInvariant(hashMap, sortedHashes)
    requires |hashMap| > 0
    ensures Owner(hashMap, sortedHashes, key) in hashMap.Values
  {
    NonEmptyRing(hashMap, sortedHashes);
    var j := Successor(sortedHashes, HashKey(key));
    assert sortedHashes[j] in hashMap;
  }

  /** Wrap-around: a key hashing past every point belongs to the owner of
      the first (smallest) point. */
  lemma OwnerWrapsAround(hashMap: map<uint32, GoString>, sortedHashes: seq<uint32>, key: GoString)
    requires RingInvariant(hashMap, sortedHashes)
    requires |hashMap| > 0
    requires forall k | 0 <= k < |sortedHashes| :: sortedHashes[k] < HashKey(key)
    ensures Owner(hashMap, sortedHashes, key) == hashMap[sortedHashes[0]]
  {
    NonEmptyRing(hashMap, sortedHashes);
  }

  /** Distinct replica indices give distinct virtual point names. */
  lemma VirtualKeysDistinct(node: GoString, i: nat, j: nat)
    requires i != j
    ensures VirtualKey(node, i) != VirtualKey(node, j)
  {
    if VirtualKey(node, i) == VirtualKey(node, j) {
      assert VirtualKey(node, i)[|node| + 1..] == Decimal(i);
      assert VirtualKey(node, j)[|node| + 1..] == Decimal(j);
      DecimalInjective(i, j);
    }
  }

  /** For node names without a colon, a virtual point name determines both
      the node and the replica index. */
  lemma VirtualKeyInjective(a: GoString, i: nat, b: GoString, j: nat)
    requires Colon !in a && Colon !in b
    requires VirtualKey(a, i) == VirtualKey(b, j)
    ensures a == b && i == j
  {
    var v := VirtualKey(a, i);
    FirstColonAt(a, i);
    FirstColonAt(b, j);
    assert |a| == |b|;
    assert a == v[..|a|] == b;
    assert v[|a| + 1..] == Decimal(i);
    assert VirtualKey(b, j)[|b| + 1..] == Decimal(j);
    DecimalInjective(i, j);
  }

  /** In the name of a virtual point of a colon-free node, the first colon
      sits right after the node name. */
  lemma FirstColonAt(node: GoString, i: nat)
    requires Colon !in node
    ensures VirtualKey(node, i)[|node|] == Colon
    ensures forall k | 0 <= k < |node| :: VirtualKey(node, i)[k] != Colon
  {
    forall k | 0 <= k < |node| ensures VirtualKey(node, i)[k] != Colon {
      assert VirtualKey(node, i)[k] == node[k];
    }
  }

  /** One more turn of the AddNode loop appends one more virtual hash. */
  lemma VirtualHashesSnoc(node: GoString, i: nat)
    ensures VirtualHashes(node, i + 1) == VirtualHashes(node, i) + [HashKey(VirtualKey(node, i))]
  {
  }

  lemma ClaimSnoc(m: map<uint32, GoString>, hs: seq<uint32>, h: uint32, node: GoString)
    ensures Claim(m, hs + [h], node) == Claim(m, hs, node)[h := node]
  {
    assert (hs + [h])[..|hs|] == hs;
  }

  /** Appending virtual points, claiming them and re-sorting keeps the ring
      invariant. */
  lemma AddPreservesInvariant(hashMap: map<uint32, GoString>, sortedHashes: seq<uint32>, hs: seq<uint32>, node: GoString)
    requires RingInvariant(hashMap, sortedHashes)
    ensures RingInvariant(Claim(hashMap, hs, node), SortAsc(sortedHashes + hs))
  {
    var appended := sortedHashes + hs;
    var sorted := SortAsc(appended);
    forall h ensures h in Claim(hashMap, hs, node) <==> h in sorted {
      calc {
        h in sorted;
        h in multiset(sorted);
        h in multiset(appended);
        h in appended;
        h in sortedHashes || h in hs;
      }
    }
  }

  /** `ConsistentHash`: the replica count, the owner of every point and the
      sorted list of points. */
  class ConsistentHash {
    var replicas: int
    var hashMap: map<uint32, GoString>
    var sortedHashes: seq<uint32>
    /** Every node name passed to AddNode so far. */
    ghost var Nodes: set<GoString>

    ghost predicate Valid()
      reads this
    {
      RingInvariant(hashMap, sortedHashes) && hashMap.Values <= Nodes
    }

    /** `NewConsistentHash(replicas)`: an empty ring. */
    constructor (replicas: int)
      ensures Valid()
      ensures this.replicas == replicas && hashMap == map[] && sortedHashes == [] && Nodes == {}
    {
      this.replicas := replicas;
      hashMap := map[];
      sortedHashes := [];
      Nodes := {};
    }

    /** `AddNode(node)`: appends the node's `replicas` virtual points, gives
        each of them to `node` (a later write to the same hash wins), then
        sorts the hash list. */
    method AddNode(node: GoString)
      requires Valid()
      modifies this
      ensures Valid()
      ensures replicas == old(replicas) && Nodes == old(Nodes) + {node}
      ensures sortedHashes == SortAsc(old(sortedHashes) + VirtualHashes(node, replicas))
      ensures hashMap == Claim(old(hashMap), VirtualHashes(node, replicas), node)
      ensures |sortedHashes| == |old(sortedHashes)| + |VirtualHashes(node, replicas)|
      ensures multiset(sortedHashes) == multiset(old(sortedHashes)) + multiset(VirtualHashes(node, replicas))
      ensures forall h | h in VirtualHashes(node, replicas) :: hashMap[h] == node
      ensures forall h | h in old(hashMap) && h !in VirtualHashes(node, replicas) :: hashMap[h] == old(hashMap)[h]
    {
      var i := 0;
      while i < replicas
        invariant 0 <= i <= if replicas < 0 then 0 else replicas
        invariant sortedHashes == old(sortedHashes) + VirtualHashes(node, i)
        invariant hashMap == Claim(old(hashMap), VirtualHashes(node, i), node)
        invariant replicas == old(replicas) && Nodes == old(Nodes)
        decreases replicas - i
      {
        var hash := HashKey(VirtualKey(node, i));
        VirtualHashesSnoc(node, i);
        ClaimSnoc(old(hashMap), VirtualHashes(node, i), hash, node);
        hashMap := hashMap[hash := node];
        sortedHashes := sortedHashes + [hash];
        i := i + 1;
      }
      ghost var hs := VirtualHashes(node, replicas);
      assert VirtualHashes(node, i) == hs;
      var appended := sortedHashes;
      assert appended == old(sortedHashes) + hs;
      sortedHashes := SortAsc(appended);
      Nodes := Nodes + {node};
      AddPreservesInvariant(old(hashMap), old(sortedHashes), hs, node);
    }

    /** `GetNode(key)`: "" on an empty ring; otherwise the owner of the first
        point at or after the key's hash, found by `sort.Search`, wrapping to
        the first point. The ring is only read. */
    method GetNode(key: GoString) returns (node: GoString)
      requires Valid()
      ensures node == Owner(hashMap, sortedHashes, key)
      ensures |hashMap| > 0 ==> node in Nodes
    {
      if |hashMap| == 0 {
        return [];
      }
      NonEmptyRing(hashMap, sortedHashes);
      var hash := HashKey(key);
      var idx := Search(sortedHashes, hash);
      if idx == |sortedHashes| {
        idx := 0;
      }
      node := hashMap[sortedHashes[idx]];
      OwnerIsRingNode(hashMap, sortedHashes, key);
    }
  }
}
