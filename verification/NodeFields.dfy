/** What each operation of the document does to the fields of its node, said field by field, and
    that it touches nothing else. */
module NodeFields {
  import opened Prelude
  import opened Ocif

  /** Only this node may differ. */
  ghost predicate OnlyAt(before: Nodes, after: Nodes, id: string) {
    && id in after && after.Keys == before.Keys + {id}
    && forall k <- before :: k != id ==> after[k] == before[k]
  }

  predicate SamePlace(a: Node, b: Node) {
    a.x == b.x && a.y == b.y && a.z == b.z
  }

  predicate SameSize(a: Node, b: Node) {
    a.width == b.width && a.height == b.height
  }

  /** What a node is, apart from its geometry and its resource. */
  predicate SameKind(a: Node, b: Node) {
    && a.rect == b.rect && a.path == b.path && a.arrow == b.arrow && a.edge == b.edge
    && a.textStyle == b.textStyle && a.window == b.window
  }

  /** No node is above z, and one is at z unless z is 0. */
  ghost predicate Top(nodes: Nodes, z: real) {
    && 0.0 <= z
    && (forall k <- nodes :: nodes[k].z <= z)
    && (z == 0.0 || exists k <- nodes :: nodes[k].z == z)
  }

  // ---------- insertion ----------

  /** The inserted node is the caller's, with one exception each for its size and its resource. A
      node without rect, arrow, path and window, of plain text by name or by default, takes the
      measured size. A window takes no resource, another node the one it names or else a new one;
      an empty id counts as none. */
  lemma InsertFields(d: Doc, id: string, n: NewNode, newId: string, measured: (real, real))
    ensures var after := Insert(d, id, n, newId, measured);
            && OnlyAt(d.nodes, after.nodes, id)
            && (var m := after.nodes[id];
                && SamePlace(m, n.node) && SameKind(m, n.node)
                && (if n.node.rect.None? && n.node.arrow.None? && n.node.path.None? && n.node.window.None? &&
                       (n.mimeType == None || n.mimeType == Some("text/plain"))
                    then m.width == measured.0 && m.height == measured.1
                    else SameSize(m, n.node))
                && m.resource ==
                   if n.node.window.Some? then None
                   else
                     match n.node.resource
                     case Some(r) => if r == "" then None else Some(r)
                     case None => if newId == "" then None else Some(newId))
  {
  }

  /** The resource table gains at most the node's resource, with the seed as its one representation:
      the caller's mime type or "text/plain", and the caller's text or none. One that is there
      stays. */
  lemma InsertResources(d: Doc, id: string, n: NewNode, newId: string, measured: (real, real))
    ensures var after := Insert(d, id, n, newId, measured);
            var r := after.nodes[id].resource;
            after.resources ==
            if r.None? || r.value in d.resources then d.resources
            else
              var mimeType := match n.mimeType case Some(t) => t case None => "text/plain";
              var text := match n.text case Some(t) => t case None => "";
              d.resources[r.value := Resource([Representation(mimeType, text)])]
  {
  }

  // ---------- windows ----------

  predicate IsWindow(m: Node, windowId: string, sidecarId: string, x: real, y: real, width: real, height: real) {
    && m.x == x && m.y == y && m.width == width && m.height == height
    && m.window.Some? && m.window.value.windowId == windowId && m.window.value.sidecarId == sidecarId
    && m.rect.None? && m.path.None? && m.arrow.None? && m.edge.None? && m.textStyle.None? && m.resource.None?
  }

  /** Attaching a new id makes a bare window of the given place, size and ids, one above the largest
      z on the frontend and at the given z on the backend; a taken id changes nothing. */
  lemma AttachFields(nodes: Nodes, windowId: string, sidecarId: string,
                     x: real, y: real, z: real, width: real, height: real)
    ensures var front := Attach(nodes, windowId, sidecarId, x, y, width, height);
            var back := AttachAt(nodes, windowId, sidecarId, x, y, z, width, height);
            if windowId in nodes then front == nodes && back == nodes
            else
              && OnlyAt(nodes, front, windowId) && OnlyAt(nodes, back, windowId)
              && IsWindow(front[windowId], windowId, sidecarId, x, y, width, height)
              && IsWindow(back[windowId], windowId, sidecarId, x, y, width, height)
              && Top(nodes, front[windowId].z - 1.0) && back[windowId].z == z
  {
  }

  /** Raising puts the node one above the largest z and changes nothing else. */
  lemma RaiseFields(nodes: Nodes, id: string)
    ensures var after := Raise(nodes, id);
            if id !in nodes then after == nodes
            else
              var n, m := nodes[id], after[id];
              && OnlyAt(nodes, after, id)
              && Top(nodes, m.z - 1.0)
              && m.x == n.x && m.y == n.y && SameSize(m, n) && SameKind(m, n) && m.resource == n.resource
  {
  }

  /** A live window takes the new size or position and keeps the rest; other nodes are left alone. */
  lemma WindowGeometry(nodes: Nodes, id: string, a: real, b: real)
    ensures var sized, moved := SetWindowSize(nodes, id, a, b), SetWindowPosition(nodes, id, a, b);
            if id !in nodes || nodes[id].window.None? then sized == nodes && moved == nodes
            else
              var n, s, m := nodes[id], sized[id], moved[id];
              && OnlyAt(nodes, sized, id) && OnlyAt(nodes, moved, id)
              && s.width == a && s.height == b
              && SamePlace(s, n) && SameKind(s, n) && s.resource == n.resource
              && m.x == a && m.y == b
              && m.z == n.z && SameSize(m, n) && SameKind(m, n) && m.resource == n.resource
  {
  }

  lemma BoundsFields(nodes: Nodes, id: string, x: real, y: real, width: real, height: real)
    ensures var after := SetBounds(nodes, id, x, y, width, height);
            if id !in nodes then after == nodes
            else
              var n, m := nodes[id], after[id];
              && OnlyAt(nodes, after, id)
              && m.x == x && m.y == y && m.width == width && m.height == height
              && m.z == n.z && SameKind(m, n) && m.resource == n.resource
  {
  }

  // ---------- arrows ----------

  /** An edge with these ends, and none without any. */
  predicate Ends(e: Option<EdgeExt>, start: Option<Stored>, end: Option<Stored>, directed: bool) {
    if start.None? && end.None? then e.None?
    else e.Some? && e.value.start == start && e.value.end == end && e.value.directed == directed
  }

  /** The node's box is the smallest one around the arrow's two points. */
  predicate BoxOf(m: Node, a: ArrowExt) {
    && (m.x == a.startX || m.x == a.endX) && m.x <= a.startX <= m.x + m.width && m.x <= a.endX <= m.x + m.width
    && (m.x + m.width == a.startX || m.x + m.width == a.endX)
    && (m.y == a.startY || m.y == a.endY) && m.y <= a.startY <= m.y + m.height && m.y <= a.endY <= m.y + m.height
    && (m.y + m.height == a.startY || m.y + m.height == a.endY)
  }

  /** What stays of an arrow's node: everything but its arrow, its edge and its box. */
  predicate SameStyle(a: Node, b: Node) {
    && a.z == b.z && a.rect == b.rect && a.path == b.path && a.textStyle == b.textStyle
    && a.window == b.window && a.resource == b.resource
  }

  /** Freeing an end moves that end of the arrow to the given point, and only that end, and takes it
      off the edge; an edge without ends is dropped. */
  lemma FreeFields(nodes: Nodes, id: string, x: real, y: real)
    requires id in nodes && nodes[id].arrow.Some?
    ensures var n := nodes[id];
            var a := n.arrow.value;
            var starts, ends := SetAnchor(nodes, id, Start, Free(x, y)), SetAnchor(nodes, id, Finish, Free(x, y));
            && OnlyAt(nodes, starts, id) && OnlyAt(nodes, ends, id)
            && starts[id].arrow == Some(ArrowExt(x, y, a.endX, a.endY))
            && ends[id].arrow == Some(ArrowExt(a.startX, a.startY, x, y))
            && (n.edge.None? ==> starts[id].edge.None? && ends[id].edge.None?)
            && (n.edge.Some? ==>
                  var e := n.edge.value;
                  Ends(starts[id].edge, None, e.end, e.directed) && Ends(ends[id].edge, e.start, None, e.directed))
            && BoxOf(starts[id], starts[id].arrow.value) && BoxOf(ends[id], ends[id].arrow.value)
            && SameStyle(starts[id], n) && SameStyle(ends[id], n)
  {
  }

  /** Anchoring an end names the target at that end of the edge, a new edge being directed and free
      at the other end, and leaves the arrow's two points where they were. */
  lemma AnchorFields(nodes: Nodes, id: string, target: Stored)
    requires id in nodes && nodes[id].arrow.Some?
    ensures var n := nodes[id];
            var starts := SetAnchor(nodes, id, Start, ToNode(target));
            var ends := SetAnchor(nodes, id, Finish, ToNode(target));
            && OnlyAt(nodes, starts, id) && OnlyAt(nodes, ends, id)
            && starts[id].arrow == n.arrow && ends[id].arrow == n.arrow
            && (match n.edge
                case None =>
                  Ends(starts[id].edge, Some(target), None, true) && Ends(ends[id].edge, None, Some(target), true)
                case Some(e) =>
                  && Ends(starts[id].edge, Some(target), e.end, e.directed)
                  && Ends(ends[id].edge, e.start, Some(target), e.directed))
            && BoxOf(starts[id], n.arrow.value) && BoxOf(ends[id], n.arrow.value)
            && SameStyle(starts[id], n) && SameStyle(ends[id], n)
  {
  }

  lemma AnchorsArrowsOnly(nodes: Nodes, id: string, end: End, anchor: Anchor)
    requires id !in nodes || nodes[id].arrow.None?
    ensures SetAnchor(nodes, id, end, anchor) == nodes
  {
  }

  // ---------- deletion ----------

  /** Deleting takes the node and, of the others, exactly those whose edge has it at an end; the
      backend's detach exactly those whose edge has it at an end as a scalar. */
  lemma SweepFields(nodes: Nodes, id: string, k: string)
    requires id in nodes
    ensures var e := if k in nodes then nodes[k].edge else None;
            var starts := e.Some? && e.value.start.Some? && e.value.start.value.id == id;
            var ends := e.Some? && e.value.end.Some? && e.value.end.value.id == id;
            && (k in Delete(nodes, id) <==> k in nodes && k != id && !starts && !ends)
            && (k in Detach(nodes, id) <==>
                k in nodes && k != id &&
                !(starts && e.value.start.value.Scalar?) && !(ends && e.value.end.value.Scalar?))
            && (k in Delete(nodes, id) ==> Delete(nodes, id)[k] == nodes[k])
            && (k in Detach(nodes, id) ==> Detach(nodes, id)[k] == nodes[k])
  {
  }

  lemma SweepsLiveOnly(nodes: Nodes, id: string)
    requires id !in nodes
    ensures Delete(nodes, id) == nodes && Detach(nodes, id) == nodes
  {
  }

  // ---------- text ----------

  /** The representations of the resource a node names, none if it names none that is there. */
  function Representations(d: Doc, n: Node): seq<Representation> {
    match n.resource
    case None => []
    case Some(r) => if r == "" || r !in d.resources then [] else d.resources[r].representations
  }

  /** Setting text keeps the node's resource or gives it the new one; in that resource the first
      representation takes the text and keeps its mime type, "text/plain" if there was none, and the
      others stay. A node without rect and arrow whose text is plain takes the measured size; a box,
      an arrow or a note of another mime type keeps its own. */
  lemma SetTextFields(d: Doc, id: string, text: string, newId: string, measured: (real, real))
    requires id in d.nodes
    ensures var after := SetText(d, id, text, newId, measured);
            && OnlyAt(d.nodes, after.nodes, id)
            && (var n, m := d.nodes[id], after.nodes[id];
                var reps := Representations(d, n);
                var mimeType := if reps == [] then "text/plain" else reps[0].mimeType;
                var r := if n.resource.Some? && n.resource.value != "" then n.resource.value else newId;
                && SamePlace(m, n) && SameKind(m, n) && m.resource == Some(r)
                && after.resources ==
                   d.resources[r := Resource([Representation(mimeType, text)] + if reps == [] then [] else reps[1..])]
                && (if n.rect.None? && n.arrow.None? && mimeType == "text/plain"
                    then m.width == measured.0 && m.height == measured.1
                    else SameSize(m, n)))
  {
    var reps := Representations(d, d.nodes[id]);
    if reps == [] {
      var written := Representation("text/plain", text);
      assert [written] + [] == [written];
    } else {
      var written := Representation(reps[0].mimeType, text);
      assert reps[0 := written] == [written] + reps[1..];
    }
  }

  lemma SetTextOfNone(d: Doc, id: string, text: string, newId: string, measured: (real, real))
    requires id !in d.nodes
    ensures SetText(d, id, text, newId, measured) == d
  {
  }
}
