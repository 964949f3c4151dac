/** The backend's operations on the node map, in place. */
module WorkspaceEntryObject {
  import opened Prelude
  import opened Ocif

  class WorkspaceEntry {
    var nodes: Nodes

    constructor ()
      ensures nodes == map[]
    {
      nodes := map[];
    }

    /** Idempotent: false and no change when the id is taken. */
    method AttachWindowNode(windowId: string, sidecarId: string, x: real, y: real, z: real, width: real, height: real)
      returns (created: bool)
      modifies this
      ensures created <==> windowId !in old(nodes)
      ensures nodes == AttachAt(old(nodes), windowId, sidecarId, x, y, z, width, height)
      ensures !created ==> nodes == old(nodes)
    {
      if windowId in nodes {
        return false;
      }
      nodes := nodes[windowId := WindowNode(windowId, sidecarId, x, y, z, width, height)];
      created := true;
    }

    /** Deletes the node, then collects the ids of the edges that name it, then deletes those. */
    method DetachWindowNode(windowId: string) returns (removed: bool)
      modifies this
      ensures removed <==> windowId in old(nodes)
      ensures nodes == Detach(old(nodes), windowId)
      ensures !removed ==> nodes == old(nodes)
    {
      if windowId !in nodes {
        return false;
      }
      nodes := nodes - {windowId};
      var toDelete := CollectEdges(windowId);
      var i := 0;
      while i < |toDelete|
        invariant 0 <= i <= |toDelete|
        invariant nodes == map k | k in old(nodes) && k != windowId && k !in toDelete[..i] :: old(nodes)[k]
      {
        nodes := nodes - {toDelete[i]};
        assert toDelete[..i + 1] == toDelete[..i] + [toDelete[i]];
        i := i + 1;
      }
      assert toDelete[..i] == toDelete;
      removed := true;
    }

    method CollectEdges(windowId: string) returns (toDelete: seq<string>)
      ensures forall k :: k in toDelete <==> k in nodes && NamesByScalar(nodes[k], windowId)
    {
      toDelete := [];
      var rest := nodes.Keys;
      while rest != {}
        invariant rest <= nodes.Keys
        invariant forall k :: k in toDelete <==> k in nodes && k !in rest && NamesByScalar(nodes[k], windowId)
        decreases |rest|
      {
        var other := Pick(rest);
        if NamesByScalar(nodes[other], windowId) {
          toDelete := toDelete + [other];
        }
        rest := rest - {other};
      }
    }

    method SetWindowNodePosition(windowId: string, x: real, y: real) returns (changed: bool)
      modifies this
      ensures nodes == SetWindowPosition(old(nodes), windowId, x, y)
      ensures changed <==> nodes != old(nodes)
      ensures nodes.Keys == old(nodes).Keys
    {
      if windowId !in nodes || nodes[windowId].window.None? {
        return false;
      }
      if nodes[windowId].x == x && nodes[windowId].y == y {
        assert nodes == SetWindowPosition(nodes, windowId, x, y);
        return false;
      }
      ghost var before := nodes[windowId];
      nodes := nodes[windowId := nodes[windowId].(x := x, y := y)];
      assert nodes[windowId] != before;
      changed := true;
    }

    method SetWindowNodeSize(windowId: string, width: real, height: real) returns (changed: bool)
      modifies this
      ensures nodes == SetWindowSize(old(nodes), windowId, width, height)
      ensures changed <==> nodes != old(nodes)
      ensures nodes.Keys == old(nodes).Keys
    {
      if windowId !in nodes || nodes[windowId].window.None? {
        return false;
      }
      if nodes[windowId].width == width && nodes[windowId].height == height {
        assert nodes == SetWindowSize(nodes, windowId, width, height);
        return false;
      }
      ghost var before := nodes[windowId];
      nodes := nodes[windowId := nodes[windowId].(width := width, height := height)];
      assert nodes[windowId] != before;
      changed := true;
    }

    /** The number of nodes and the running maximum of z. */
    method NodeStats() returns (count: nat, maxZ: real)
      ensures count == |nodes|
      ensures IsMaxZ(nodes, maxZ) && maxZ == MaxZ(nodes)
    {
      count, maxZ := 0, 0.0;
      var rest := nodes.Keys;
      while rest != {}
        invariant rest <= nodes.Keys && count + |rest| == |nodes.Keys|
        invariant 0.0 <= maxZ
        invariant forall k <- nodes :: k !in rest ==> nodes[k].z <= maxZ
        invariant maxZ == 0.0 || exists k <- nodes :: nodes[k].z == maxZ
        decreases |rest|
      {
        var key := Pick(rest);
        count := count + 1;
        if nodes[key].z > maxZ {
          maxZ := nodes[key].z;
        }
        rest := rest - {key};
      }
    }

    method WindowNodeIds() returns (ids: seq<string>)
      ensures forall k :: k in ids <==> k in WindowIds(nodes)
    {
      ids := [];
      var rest := nodes.Keys;
      while rest != {}
        invariant rest <= nodes.Keys
        invariant forall k :: k in ids <==> k in nodes && k !in rest && nodes[k].window.Some?
        decreases |rest|
      {
        var id := Pick(rest);
        if nodes[id].window.Some? {
          ids := ids + [id];
        }
        rest := rest - {id};
      }
    }
  }
}
