/**
 * The routing table of a Raft node (myraft/src/network.rs): which address
 * each peer id answers at.  The `RwLock` around the table and the RPC
 * methods that read it are not modelled; a `MyRaftNetwork` here is the
 * table and the node's own id.
 */
module Network {
  /** `NodeId` of `async_raft`. */
  type NodeId = nat

  /**
   * The ids that `new_rt` maps to an address the table `rt` does not hold
   * for them: new peers and peers that moved.
   */
  function Changed(rt: map<NodeId, string>, newRt: map<NodeId, string>): set<NodeId>
  {
    set id | id in newRt && (id !in rt || rt[id] != newRt[id])
  }

  /** The ids `update_rt` reports: the changed ones, except the node itself. */
  function Adds(rt: map<NodeId, string>, newRt: map<NodeId, string>, self: NodeId): (r: set<NodeId>)
    ensures self !in r
    ensures forall id :: id in r <==> id != self && id in newRt && (id !in rt || rt[id] != newRt[id])
  {
    Changed(rt, newRt) - {self}
  }

  /** `s` holds no id twice. */
  predicate NoDuplicates(s: seq<NodeId>)
  {
    forall i, j :: 0 <= i < j < |s| ==> s[i] != s[j]
  }

  /** Adding one more entry to an update adds its id to the ids reported, if it is changed and not the node's own. */
  lemma AddsStep(rt: map<NodeId, string>, part: map<NodeId, string>, id: NodeId, addr: string, self: NodeId)
    requires id !in part
    ensures Adds(rt, part[id := addr], self) ==
      Adds(rt, part, self) + if id != self && (id !in rt || rt[id] != addr) then {id} else {}
  {
  }

  /** Merging one more entry is updating the merged table at that entry. */
  lemma MergeStep(rt: map<NodeId, string>, part: map<NodeId, string>, id: NodeId, addr: string)
    ensures rt + part[id := addr] == (rt + part)[id := addr]
  {
  }

  /**
   * After a merge, every entry of `new_rt` is in the table, every other
   * entry of the old table is kept, and nothing else is there.
   */
  lemma MergeEntries(rt: map<NodeId, string>, newRt: map<NodeId, string>)
    ensures (rt + newRt).Keys == rt.Keys + newRt.Keys
    ensures forall id :: id in newRt ==> (rt + newRt)[id] == newRt[id]
    ensures forall id :: id in rt && id !in newRt ==> (rt + newRt)[id] == rt[id]
  {
  }

  /** Merging the same update twice changes nothing the second time and reports no id. */
  lemma UpdateIdempotent(rt: map<NodeId, string>, newRt: map<NodeId, string>, self: NodeId)
    ensures rt + newRt + newRt == rt + newRt
    ensures Adds(rt + newRt, newRt, self) == {}
  {
  }

  class MyRaftNetwork {
    const selfId: NodeId
    var routingTable: map<NodeId, string>

    /** `new`: a table that knows only the node itself. */
    constructor(id: NodeId, addr: string)
      ensures selfId == id && routingTable == map[id := addr]
    {
      selfId := id;
      routingTable := map[id := addr];
    }

    /**
     * `update_rt`: writes every entry of `new_rt` into the table and
     * returns, in the iteration order of `new_rt`, the ids other than the
     * node's own whose address was missing or different.
     */
    method UpdateRt(newRt: map<NodeId, string>) returns (adds: seq<NodeId>)
      modifies this`routingTable
      ensures routingTable == old(routingTable) + newRt
      ensures (set id | id in adds) == Adds(old(routingTable), newRt, selfId)
      ensures NoDuplicates(adds)
    {
      ghost var rt0 := routingTable;
      ghost var part: map<NodeId, string> := map[];
      var rest := newRt.Keys;
      adds := [];
      while rest != {}
        invariant rest <= newRt.Keys && forall id :: id in part <==> id in newRt && id !in rest
        invariant forall id :: id in part ==> part[id] == newRt[id]
        invariant routingTable == rt0 + part
        invariant forall id :: id in adds <==> id in Adds(rt0, part, selfId)
        invariant NoDuplicates(adds) && forall id :: id in adds ==> id in part
        decreases rest
      {
        var newId :| newId in rest;
        var newAddr := newRt[newId];
        AddsStep(rt0, part, newId, newAddr, selfId);
        MergeStep(rt0, part, newId, newAddr);
        rest := rest - {newId};
        part := part[newId := newAddr];
        if newId in routingTable && routingTable[newId] == newAddr {
          assert routingTable[newId := newAddr] == routingTable;
          continue;
        }
        routingTable := routingTable[newId := newAddr];
        if newId != selfId {
          adds := adds + [newId];
        }
      }
      assert part == newRt;
    }
  }
}
