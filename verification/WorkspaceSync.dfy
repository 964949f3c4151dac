/** The frontend's operations on the document, in place. */
module WorkspaceSyncObject {
  import opened Prelude
  import opened Ocif

  class WorkspaceSync {
    var nodes: Nodes
    var resources: Resources

    ghost function View(): Doc
      reads this
    {
      Doc(nodes, resources)
    }

    constructor ()
      ensures View() == EmptyDoc
    {
      nodes, resources := map[], map[];
    }

    method FindMaxZ() returns (maxZ: real)
      ensures maxZ == MaxZ(nodes)
    {
      maxZ := 0.0;
      var rest := nodes.Keys;
      while rest != {}
        invariant rest <= nodes.Keys && 0.0 <= maxZ
        invariant forall k <- nodes :: k !in rest ==> nodes[k].z <= maxZ
        invariant maxZ == 0.0 || exists k <- nodes :: nodes[k].z == maxZ
        decreases |rest|
      {
        var key := Pick(rest);
        if nodes[key].z > maxZ {
          maxZ := nodes[key].z;
        }
        rest := rest - {key};
      }
      assert IsMaxZ(nodes, maxZ);
    }

    method InsertOcifNode(id: string, n: NewNode, newId: string, measured: (real, real))
      modifies this
      ensures View() == Insert(old(View()), id, n, newId, measured)
    {
      var mimeType := GetOr(n.mimeType, PLAIN);
      var resourceId: Option<string> := None;
      if n.node.window.None? {
        resourceId := Some(GetOr(n.node.resource, newId));
      }
      if Truthy(resourceId) && resourceId.value !in resources {
        resources := resources[resourceId.value := Resource([Representation(mimeType, GetOr(n.text, ""))])];
      }
      var stored := n.node.(resource := if Truthy(resourceId) then resourceId else None);
      if AutoFits(n) {
        stored := stored.(width := measured.0, height := measured.1);
      }
      nodes := nodes[id := stored];
    }

    method AttachWindow(windowId: string, sidecarId: string, x: real, y: real, width: real, height: real)
      modifies this
      ensures View() == old(View()).(nodes := Attach(old(nodes), windowId, sidecarId, x, y, width, height))
    {
      if windowId in nodes {
        return;
      }
      var maxZ := FindMaxZ();
      var n := WindowNode(windowId, sidecarId, x, y, maxZ + 1.0, width, height);
      InsertOcifNode(windowId, NewNode(n, None, None), "", (0.0, 0.0));
    }

    method RaiseOcifNode(id: string)
      modifies this
      ensures View() == old(View()).(nodes := Raise(old(nodes), id))
    {
      if id !in nodes {
        return;
      }
      var maxZ := FindMaxZ();
      nodes := nodes[id := nodes[id].(z := maxZ + 1.0)];
    }

    method SetOcifArrowAnchor(id: string, end: End, anchor: Anchor)
      modifies this
      ensures View() == old(View()).(nodes := SetAnchor(old(nodes), id, end, anchor))
    {
      if id !in nodes || nodes[id].arrow.None? {
        return;
      }
      var n := nodes[id];
      match anchor {
        case ToNode(target) =>
          if n.edge.None? {
            n := n.(edge := Some(EdgeExt(None, None, true)));
          }
          n := n.(edge := Some(WithEnd(n.edge.value, end, Some(target))));
        case Free(x, y) =>
          if n.edge.Some? {
            n := n.(edge := Some(WithEnd(n.edge.value, end, None)));
            if n.edge.value.start.None? && n.edge.value.end.None? {
              n := n.(edge := None);
            }
          }
          if end.Start? {
            n := n.(arrow := Some(n.arrow.value.(startX := x, startY := y)));
          } else {
            n := n.(arrow := Some(n.arrow.value.(endX := x, endY := y)));
          }
      }
      var a := n.arrow.value;
      n := n.(x := Min(a.startX, a.endX), y := Min(a.startY, a.endY),
              width := AbsDiff(a.endX, a.startX), height := AbsDiff(a.endY, a.startY));
      nodes := nodes[id := n];
    }

    /** Deletes the node, then deletes edges that name it while walking the remaining entries. */
    method DeleteOcifNode(id: string)
      modifies this
      ensures View() == old(View()).(nodes := Delete(old(nodes), id))
    {
      if id !in nodes {
        return;
      }
      nodes := nodes - {id};
      var entries := nodes;
      var rest := entries.Keys;
      while rest != {}
        invariant rest <= entries.Keys && resources == old(resources)
        invariant nodes == map k | k in entries && (k in rest || !Names(entries[k], id)) :: entries[k]
        decreases |rest|
      {
        var otherId := Pick(rest);
        if Names(entries[otherId], id) {
          nodes := nodes - {otherId};
        }
        rest := rest - {otherId};
      }
    }

    /** Writes text through the node's resource, creating the resource or its representation
        where it is missing. */
    method WriteText(id: string, text: string, newId: string)
      requires id in nodes
      modifies this
      ensures nodes == old(nodes)[id := old(nodes)[id].(resource := Some(ResourceOf(old(nodes)[id], newId)))]
      ensures var r := ResourceOf(old(nodes)[id], newId);
              resources == old(resources)[r :=
                Written(if Truthy(old(nodes)[id].resource) && r in old(resources)
                        then Some(old(resources)[r]) else None, text)]
    {
      var n := nodes[id];
      if !Truthy(n.resource) {
        nodes := nodes[id := n.(resource := Some(newId))];
        resources := resources[newId := Resource([Representation(PLAIN, "")])];
        resources := resources[newId := Resource([Representation(PLAIN, text)])];
        return;
      }
      var r := n.resource.value;
      assert n == n.(resource := Some(r));
      assert nodes == nodes[id := n];
      if r !in resources {
        resources := resources[r := Resource([Representation(PLAIN, text)])];
      } else if resources[r].representations != [] {
        var reps := resources[r].representations;
        resources := resources[r := Resource(reps[0 := reps[0].(content := text)])];
      } else {
        resources := resources[r := Resource([Representation(PLAIN, text)])];
      }
    }

    method SetOcifNodeText(id: string, text: string, newId: string, measured: (real, real))
      modifies this
      ensures View() == SetText(old(View()), id, text, newId, measured)
    {
      if id !in nodes {
        return;
      }
      WriteText(id, text, newId);
      var n := nodes[id];
      if AutoResizes(resources, n) {
        nodes := nodes[id := n.(width := measured.0, height := measured.1)];
      }
    }
  }
}
