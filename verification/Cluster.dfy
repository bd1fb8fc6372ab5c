/** The ring part of the Cluster object (src/util/Cluster.cpp): node_hash updated in loops. The position of a key on
    the circle is a parameter of the queries. */
module ClusterClass {
  import opened Wrappers
  import opened Decimal
  import opened Ring
  import opened Replicas

  class Cluster {
    const mix: Mixing
    const self: nat
    var nodeHash: Points

    constructor (mix: Mixing, self: nat)
      ensures this.mix == mix && this.self == self && nodeHash == map[]
    {
      this.mix, this.self, nodeHash := mix, self, map[];
    }

    method AddNodeToHash(id: nat)
      modifies this
      ensures nodeHash == Add(mix, old(nodeHash), id, VIRTUAL_REPLICAS)
    {
      var hsh := id;
      for i := 0 to VIRTUAL_REPLICAS
        invariant hsh == Iter(mix, id, i)
        invariant nodeHash == Add(mix, old(nodeHash), id, i)
      {
        hsh := mix(hsh);
        nodeHash := nodeHash[hsh := id];
      }
    }

    method DelNodeToHash(id: nat)
      modifies this
      ensures nodeHash == Remove(mix, old(nodeHash), id, VIRTUAL_REPLICAS)
    {
      var hsh := id;
      for i := 0 to VIRTUAL_REPLICAS
        invariant hsh == Iter(mix, id, i)
        invariant nodeHash == Remove(mix, old(nodeHash), id, i)
      {
        hsh := mix(hsh);
        nodeHash := nodeHash - {hsh};
      }
    }

    /** queryNode: the owner of the nearest point clockwise. None is an empty ring, on which the code dereferences the
        end of the map. */
    method QueryNode(p: nat) returns (owner: Option<nat>)
      ensures owner.None? <==> nodeHash == map[]
      ensures owner.Some? ==> owner.value == Owner(nodeHash, p)
      ensures owner.Some? && OnCircle(nodeHash.Keys) && p < U64 ==>
                exists s :: s in nodeHash && owner.value == nodeHash[s]
                            && forall q :: q in nodeHash ==> Clockwise(p, s) <= Clockwise(p, q)
    {
      if nodeHash == map[] { return None; }
      var s := Successor(nodeHash.Keys, p);
      owner := Some(nodeHash[s]);
      if OnCircle(nodeHash.Keys) && p < U64 {
        SuccessorIsNearest(nodeHash.Keys, p, s);
      }
    }

    method QueryReplicas(p: nat, n: int) returns (result: seq<nat>)
      requires nodeHash != map[] ==> |nodeHash.Values| >= Limit(n) || |nodeHash.Values| == |nodeHash|
      ensures nodeHash == map[] ==> result == [self]
      ensures nodeHash != map[] ==>
                && result <= Order(nodeHash, p)
                && |result| == (if Limit(n) <= |nodeHash.Values| then Limit(n) else |nodeHash.Values|)
      ensures nodeHash != map[] && n > 0 ==> result != [] && result[0] == Owner(nodeHash, p)
    {
      result := Replicas.QueryReplicas(nodeHash, self, p, n);
    }
  }
}
