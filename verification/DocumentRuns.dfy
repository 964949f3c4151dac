/** Whole runs of document operations on one replica, and what every run keeps. */
module DocumentRuns {
  import opened Prelude
  import opened Ocif

  datatype Op =
    | InsertOp(id: string, n: NewNode, newId: string, measured: (real, real))
    | AttachOp(id: string, sidecarId: string, x: real, y: real, width: real, height: real)
    | BackendAttachOp(id: string, sidecarId: string, x: real, y: real, z: real, width: real, height: real)
    | RaiseOp(id: string)
    | BoundsOp(id: string, x: real, y: real, width: real, height: real)
    | WindowSizeOp(id: string, width: real, height: real)
    | WindowPositionOp(id: string, x: real, y: real)
    | AnchorOp(id: string, end: End, anchor: Anchor)
    | TextOp(id: string, text: string, newId: string, measured: (real, real))
    | DeleteOp(id: string)
    | BackendDetachOp(id: string)

  ghost function Apply(d: Doc, op: Op): Doc {
    match op
    case InsertOp(id, n, newId, measured) => Insert(d, id, n, newId, measured)
    case AttachOp(id, sidecarId, x, y, w, h) => d.(nodes := Attach(d.nodes, id, sidecarId, x, y, w, h))
    case BackendAttachOp(id, sidecarId, x, y, z, w, h) => d.(nodes := AttachAt(d.nodes, id, sidecarId, x, y, z, w, h))
    case RaiseOp(id) => d.(nodes := Raise(d.nodes, id))
    case BoundsOp(id, x, y, w, h) => d.(nodes := SetBounds(d.nodes, id, x, y, w, h))
    case WindowSizeOp(id, w, h) => d.(nodes := SetWindowSize(d.nodes, id, w, h))
    case WindowPositionOp(id, x, y) => d.(nodes := SetWindowPosition(d.nodes, id, x, y))
    case AnchorOp(id, end, anchor) => d.(nodes := SetAnchor(d.nodes, id, end, anchor))
    case TextOp(id, text, newId, measured) => SetText(d, id, text, newId, measured)
    case DeleteOp(id) => d.(nodes := Delete(d.nodes, id))
    case BackendDetachOp(id) => d.(nodes := Detach(d.nodes, id))
  }

  /** Operations that only touch fields of the node they name. */
  predicate Touches(op: Op) {
    op.BoundsOp? || op.WindowSizeOp? || op.WindowPositionOp? || op.AnchorOp? || op.TextOp?
  }

  /** Such an operation keeps every other node, and the z and the window of its own. */
  lemma KeepsOthers(d: Doc, op: Op)
    requires Touches(op)
    ensures var after := Apply(d, op).nodes;
            if op.id !in d.nodes then after == d.nodes
            else
              && op.id in after && after == d.nodes[op.id := after[op.id]]
              && after[op.id].z == d.nodes[op.id].z && after[op.id].window == d.nodes[op.id].window
  {
    assert op.id in d.nodes ==> d.nodes == d.nodes[op.id := d.nodes[op.id]];
  }

  // ---------- edge integrity ----------

  /** A live node that is not an arrow: what an edge may point at. */
  predicate Attachable(nodes: Nodes, target: string) {
    target in nodes && nodes[target].arrow.None?
  }

  /** An edge sits on an arrow, has at least one end, and each end names an attachable node. */
  ghost predicate EdgeOk(nodes: Nodes, n: Node) {
    n.edge.Some? ==>
      var e := n.edge.value;
      && n.arrow.Some?
      && (e.start.Some? || e.end.Some?)
      && (e.start.Some? ==> Attachable(nodes, e.start.value.id))
      && (e.end.Some? ==> Attachable(nodes, e.end.value.id))
  }

  ghost predicate Integral(nodes: Nodes) {
    forall k <- nodes :: EdgeOk(nodes, nodes[k])
  }

  /** Every other edge that names the id does so by a string scalar. */
  ghost predicate NamedByScalar(nodes: Nodes, id: string) {
    forall k <- nodes :: k != id && Names(nodes[k], id) ==> NamesByScalar(nodes[k], id)
  }

  /** What callers must respect: inserts use fresh ids and well-formed edges, anchors of
      arrows target attachable nodes, and the backend detaches only what scalars name. */
  ghost predicate Legal(d: Doc, op: Op) {
    match op
    case InsertOp(id, n, _, _) => id !in d.nodes && EdgeOk(d.nodes, n.node)
    case AnchorOp(id, _, ToNode(target)) =>
      id in d.nodes && d.nodes[id].arrow.Some? ==> Attachable(d.nodes, target.id)
    case BackendDetachOp(id) => NamedByScalar(d.nodes, id)
    case _ => true
  }

  ghost predicate LegalRun(d: Doc, ops: seq<Op>)
    decreases |ops|
  {
    ops == [] || (Legal(d, ops[0]) && LegalRun(Apply(d, ops[0]), ops[1..]))
  }

  ghost function Run(d: Doc, ops: seq<Op>): Doc
    decreases |ops|
  {
    if ops == [] then d else Run(Apply(d, ops[0]), ops[1..])
  }

  /** Two maps that agree on which nodes are live, which are arrows, and on every edge. */
  ghost predicate SameEdges(a: Nodes, b: Nodes) {
    && a.Keys == b.Keys
    && forall k <- a :: a[k].edge == b[k].edge && (a[k].arrow.Some? <==> b[k].arrow.Some?)
  }

  lemma SameEdgesIntegral(a: Nodes, b: Nodes)
    requires Integral(a) && SameEdges(a, b)
    ensures Integral(b)
  {
    forall k <- b
      ensures EdgeOk(b, b[k])
    {
      assert EdgeOk(a, a[k]);
    }
  }

  /** Adding a node under a fresh id. */
  lemma AddIntegral(nodes: Nodes, id: string, n: Node)
    requires Integral(nodes) && id !in nodes && EdgeOk(nodes, n)
    ensures Integral(nodes[id := n])
  {
    forall k <- nodes
      ensures EdgeOk(nodes[id := n], nodes[k])
    {
      assert EdgeOk(nodes, nodes[k]);
    }
  }

  /** Anchoring one end of an arrow keeps integrity exactly when the target is a live node
      that is not an arrow. */
  lemma AnchorExact(nodes: Nodes, id: string, end: End, target: Stored)
    requires Integral(nodes) && id in nodes && nodes[id].arrow.Some?
    ensures Integral(SetAnchor(nodes, id, end, ToNode(target))) <==> Attachable(nodes, target.id)
  {
    var after := SetAnchor(nodes, id, end, ToNode(target));
    assert forall t :: Attachable(after, t) <==> Attachable(nodes, t);
    assert EdgeOk(nodes, nodes[id]);
    if Attachable(nodes, target.id) {
      forall k <- after
        ensures EdgeOk(after, after[k])
      {
        assert EdgeOk(nodes, nodes[k]);
      }
    } else {
      assert !EdgeOk(after, after[id]);
    }
  }

  function EndOf(e: Option<EdgeExt>, end: End): Option<Stored> {
    if e.None? then None else if end.Start? then e.value.start else e.value.end
  }

  /** Anchoring sets the chosen end and nothing else: the other end stays, the edge exists
      exactly while it has an end, the arrow's box spans its two cached points, and every
      other node is untouched. */
  lemma AnchorEffect(nodes: Nodes, id: string, end: End, other: End, anchor: Anchor)
    requires id in nodes && nodes[id].arrow.Some? && end != other
    requires nodes[id].edge.Some? ==> nodes[id].edge.value.start.Some? || nodes[id].edge.value.end.Some?
    ensures var after := SetAnchor(nodes, id, end, anchor);
            var n := after[id];
            && after.Keys == nodes.Keys && (forall k <- nodes :: k != id ==> after[k] == nodes[k])
            && EndOf(n.edge, end) == (if anchor.ToNode? then Some(anchor.target) else None)
            && EndOf(n.edge, other) == EndOf(nodes[id].edge, other)
            && (n.edge.Some? <==> EndOf(n.edge, Start).Some? || EndOf(n.edge, Finish).Some?)
            && n.arrow.Some?
            && (var a := n.arrow.value;
                && {n.x, n.x + n.width} == {a.startX, a.endX} && n.width >= 0.0
                && {n.y, n.y + n.height} == {a.startY, a.endY} && n.height >= 0.0)
  {
    var after := SetAnchor(nodes, id, end, anchor);
    assert after.Keys == nodes.Keys;
  }

  lemma FreeIntegral(nodes: Nodes, id: string, end: End, x: real, y: real)
    requires Integral(nodes)
    ensures Integral(SetAnchor(nodes, id, end, Free(x, y)))
  {
    var after := SetAnchor(nodes, id, end, Free(x, y));
    assert forall t :: Attachable(after, t) <==> Attachable(nodes, t);
    forall k <- after
      ensures EdgeOk(after, after[k])
    {
      assert EdgeOk(nodes, nodes[k]);
    }
  }

  /** The frontend's one-level sweep is enough: no edge names a swept arrow. */
  lemma DeleteIntegral(nodes: Nodes, id: string)
    requires Integral(nodes)
    ensures Integral(Delete(nodes, id))
  {
    var after := Delete(nodes, id);
    forall k <- after
      ensures EdgeOk(after, after[k])
    {
      assert EdgeOk(nodes, nodes[k]);
      forall t | Attachable(nodes, t) && t != id
        ensures Attachable(after, t)
      {
        assert EdgeOk(nodes, nodes[t]);
      }
    }
  }

  /** The backend's detach keeps integrity exactly when every edge on the node names it by a
      scalar; an edge that names it by a text object is left dangling. */
  lemma DetachExact(nodes: Nodes, id: string)
    requires Integral(nodes) && id in nodes
    ensures Integral(Detach(nodes, id)) <==> NamedByScalar(nodes, id)
  {
    if NamedByScalar(nodes, id) {
      assert Detach(nodes, id) == Delete(nodes, id);
      DeleteIntegral(nodes, id);
    } else {
      var k :| k in nodes && k != id && Names(nodes[k], id) && !NamesByScalar(nodes[k], id);
      assert k in Detach(nodes, id) && !EdgeOk(Detach(nodes, id), nodes[k]);
    }
  }

  lemma IntegralStep(d: Doc, op: Op)
    requires Integral(d.nodes) && Legal(d, op)
    ensures Integral(Apply(d, op).nodes)
  {
    var after := Apply(d, op).nodes;
    match op
    case InsertOp(id, n, newId, measured) => AddIntegral(d.nodes, id, after[id]);
    case AttachOp(id, _, _, _, _, _) => if id !in d.nodes { AddIntegral(d.nodes, id, after[id]); }
    case BackendAttachOp(id, _, _, _, _, _, _) => if id !in d.nodes { AddIntegral(d.nodes, id, after[id]); }
    case AnchorOp(id, end, ToNode(target)) =>
      if id in d.nodes && d.nodes[id].arrow.Some? {
        AnchorExact(d.nodes, id, end, target);
      }
    case AnchorOp(id, end, Free(x, y)) => FreeIntegral(d.nodes, id, end, x, y);
    case DeleteOp(id) => DeleteIntegral(d.nodes, id);
    case BackendDetachOp(id) => if id in d.nodes { DetachExact(d.nodes, id); }
    case _ => EdgelessStep(d, op);
  }

  /** Raising, geometry and text touch no edge. */
  lemma EdgelessStep(d: Doc, op: Op)
    requires Integral(d.nodes)
    requires op.RaiseOp? || op.BoundsOp? || op.WindowSizeOp? || op.WindowPositionOp? || op.TextOp?
    ensures Integral(Apply(d, op).nodes)
  {
    SameEdgesIntegral(d.nodes, Apply(d, op).nodes);
  }

  /** Edge integrity over every legal run: every edge sits on an arrow, has an end, and each
      end names a live node that is not an arrow. */
  lemma {:induction false} EdgeIntegrity(d: Doc, ops: seq<Op>)
    requires Integral(d.nodes) && LegalRun(d, ops)
    ensures Integral(Run(d, ops).nodes)
    decreases |ops|
  {
    if ops != [] {
      IntegralStep(d, ops[0]);
      EdgeIntegrity(Apply(d, ops[0]), ops[1..]);
    }
  }

  const Box := Node(0.0, 0.0, 1.0, 1.0, 1.0, None, None, None, None, None, None, None)

  function ArrowTo(target: Stored): Node {
    Box.(arrow := Some(ArrowExt(0.0, 0.0, 1.0, 1.0)), edge := Some(EdgeExt(Some(target), None, true)))
  }

  ghost predicate NoDangling(nodes: Nodes) {
    forall k, t :: k in nodes && Names(nodes[k], t) ==> t in nodes
  }

  /** Whatever names a node that names a third also names the third. */
  ghost predicate OneLevel(nodes: Nodes) {
    forall a, b, c :: a in nodes && b in nodes && c in nodes && a != b && b != c && a != c ==>
      Names(nodes[c], b) && Names(nodes[b], a) ==> Names(nodes[c], a)
  }

  lemma OneLevelSuffices(nodes: Nodes, id: string)
    requires NoDangling(nodes) && OneLevel(nodes)
    ensures NoDangling(Delete(nodes, id))
  {
    var after := Delete(nodes, id);
    forall k, t | k in after && Names(after[k], t)
      ensures t in after
    {
      assert t in nodes;
    }
  }

  lemma OneLevelNeeded(nodes: Nodes, a: string, b: string, c: string)
    requires a in nodes && b in nodes && c in nodes && a != b && b != c && a != c
    requires Names(nodes[c], b) && Names(nodes[b], a) && !Names(nodes[c], a)
    ensures !NoDangling(Delete(nodes, a))
  {
    var after := Delete(nodes, a);
    assert c in after && Names(after[c], b) && b !in after;
  }

  /** Edge integrity is the simplest such case: nothing names an arrow. */
  lemma IntegralIsOneLevel(nodes: Nodes)
    requires Integral(nodes)
    ensures NoDangling(nodes) && OneLevel(nodes)
  {
    forall k <- nodes
      ensures forall t :: Names(nodes[k], t) ==> Attachable(nodes, t)
    {
      assert EdgeOk(nodes, nodes[k]);
    }
    forall k <- nodes
      ensures nodes[k].edge.Some? ==> nodes[k].arrow.Some?
    {
      assert EdgeOk(nodes, nodes[k]);
    }
  }

  /** When the one-level sweep is enough: in a map without dangling edges no delete leaves one if
      and only if whatever names a node that names a third also names the third. */
  lemma DeleteExact(nodes: Nodes)
    requires NoDangling(nodes)
    ensures (forall id :: NoDangling(Delete(nodes, id))) <==> OneLevel(nodes)
  {
    if OneLevel(nodes) {
      forall id: string
        ensures NoDangling(Delete(nodes, id))
      {
        OneLevelSuffices(nodes, id);
      }
    } else {
      var a, b, c :| a in nodes && b in nodes && c in nodes && a != b && b != c && a != c &&
                     Names(nodes[c], b) && Names(nodes[b], a) && !Names(nodes[c], a);
      OneLevelNeeded(nodes, a, b, c);
    }
  }

  /** Why edges must not point at arrows: with an arrow on an arrow, the one-level sweep
      removes the first and leaves the second dangling. */
  lemma ArrowOnArrowDangles()
    ensures var nodes := map["a" := Box, "b" := ArrowTo(Scalar("a")), "c" := ArrowTo(Scalar("b"))];
            var after := Delete(nodes, "a");
            "c" in after && Names(after["c"], "b") && "b" !in after
  {
    var nodes := map["a" := Box, "b" := ArrowTo(Scalar("a")), "c" := ArrowTo(Scalar("b"))];
    assert "c" != "a" && "b" != "a" && "c" != "b";
    assert nodes["c"] == ArrowTo(Scalar("b")) && nodes["b"] == ArrowTo(Scalar("a"));
  }

  // ---------- the two deletes ----------

  /** Rust's sweep and TypeScript's sweep leave the same map, every other node whose edge does
      not name the id, exactly when every edge on the node names it by a scalar. */
  lemma DeletesAgreeExactly(nodes: Nodes, id: string)
    requires id in nodes
    ensures Detach(nodes, id) == Delete(nodes, id) <==> NamedByScalar(nodes, id)
  {
    if !NamedByScalar(nodes, id) {
      var k :| k in nodes && k != id && Names(nodes[k], id) && !NamesByScalar(nodes[k], id);
      assert k in Detach(nodes, id) && k !in Delete(nodes, id);
    }
  }

  lemma TextEndpointSurvivesDetach()
    ensures var nodes := map["w" := Box, "e" := ArrowTo(Text("w"))];
            "e" in Detach(nodes, "w") && "e" !in Delete(nodes, "w")
  {
    var nodes := map["w" := Box, "e" := ArrowTo(Text("w"))];
    assert "e" != "w" && nodes["e"] == ArrowTo(Text("w"));
  }

  // ---------- windows ----------

  /** Attaching a new window and detaching it restores the map exactly when no edge already
      named its id by a scalar. */
  lemma AttachDetachRestores(nodes: Nodes, id: string, sidecarId: string, x: real, y: real, z: real, w: real, h: real)
    requires id !in nodes
    ensures Detach(AttachAt(nodes, id, sidecarId, x, y, z, w, h), id) == nodes <==>
            forall k <- nodes :: !NamesByScalar(nodes[k], id)
  {
    var attached := AttachAt(nodes, id, sidecarId, x, y, z, w, h);
    var back := Detach(attached, id);
    if k :| k in nodes && NamesByScalar(nodes[k], id) {
      assert k !in back;
    } else {
      assert back == nodes;
    }
  }

  /** Windows carry no arrow and no edge, so no sweep ever removes one. */
  ghost predicate PlainWindows(nodes: Nodes) {
    forall k <- nodes :: nodes[k].window.Some? ==> nodes[k].arrow.None? && nodes[k].edge.None?
  }

  /** Inserts are not windows and use fresh ids; an attach never reuses another node's id. */
  ghost predicate WindowLegal(d: Doc, op: Op) {
    match op
    case InsertOp(id, n, _, _) => id !in d.nodes && n.node.window.None?
    case AttachOp(id, _, _, _, _, _) => id in d.nodes ==> d.nodes[id].window.Some?
    case BackendAttachOp(id, _, _, _, _, _, _) => id in d.nodes ==> d.nodes[id].window.Some?
    case _ => true
  }

  ghost predicate WindowLegalRun(d: Doc, ops: seq<Op>)
    decreases |ops|
  {
    ops == [] || (WindowLegal(d, ops[0]) && WindowLegalRun(Apply(d, ops[0]), ops[1..]))
  }

  function Tally(ids: set<string>, op: Op): set<string> {
    match op
    case AttachOp(id, _, _, _, _, _) => ids + {id}
    case BackendAttachOp(id, _, _, _, _, _, _) => ids + {id}
    case DeleteOp(id) => ids - {id}
    case BackendDetachOp(id) => ids - {id}
    case _ => ids
  }

  /** The ids attached and not since detached or deleted. */
  function Attached(ids: set<string>, ops: seq<Op>): set<string>
    decreases |ops|
  {
    if ops == [] then ids else Attached(Tally(ids, ops[0]), ops[1..])
  }

  lemma WindowStep(d: Doc, op: Op)
    requires PlainWindows(d.nodes) && WindowLegal(d, op)
    ensures PlainWindows(Apply(d, op).nodes)
    ensures WindowIds(Apply(d, op).nodes) == Tally(WindowIds(d.nodes), op)
  {
    match op
    case DeleteOp(_) => WindowSweep(d, op);
    case BackendDetachOp(_) => WindowSweep(d, op);
    case InsertOp(_, _, _, _) =>
    case AttachOp(_, _, _, _, _, _) =>
    case BackendAttachOp(_, _, _, _, _, _, _) =>
    case RaiseOp(_) =>
    case _ => WindowStays(d, op);
  }

  lemma WindowSweep(d: Doc, op: Op)
    requires PlainWindows(d.nodes) && (op.DeleteOp? || op.BackendDetachOp?)
    ensures PlainWindows(Apply(d, op).nodes)
    ensures WindowIds(Apply(d, op).nodes) == WindowIds(d.nodes) - {op.id}
  {
  }

  lemma WindowStays(d: Doc, op: Op)
    requires PlainWindows(d.nodes) && Touches(op)
    ensures PlainWindows(Apply(d, op).nodes)
    ensures WindowIds(Apply(d, op).nodes) == WindowIds(d.nodes)
  {
    KeepsOthers(d, op);
  }

  /** The window nodes of a replica are, after every run, exactly the windows attached and not
      since detached, whatever else happens to the document. */
  lemma {:induction false} WindowsAreTheAttached(d: Doc, ops: seq<Op>)
    requires PlainWindows(d.nodes) && WindowLegalRun(d, ops)
    ensures WindowIds(Run(d, ops).nodes) == Attached(WindowIds(d.nodes), ops)
    decreases |ops|
  {
    if ops != [] {
      WindowStep(d, ops[0]);
      WindowsAreTheAttached(Apply(d, ops[0]), ops[1..]);
    }
  }
}
