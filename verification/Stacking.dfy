/** Stacking order by z refines a list in which attaching and raising move a node to the end. */
module Stacking {
  import opened Ocif
  import opened DocumentRuns

  function Without(list: seq<string>, gone: set<string>): seq<string> {
    if list == [] then []
    else
      var last := list[|list| - 1];
      Without(list[..|list| - 1], gone) + if last in gone then [] else [last]
  }

  /** The list move of one operation, given the ids the operation removes from the document. */
  function Move(list: seq<string>, op: Op, gone: set<string>): seq<string> {
    match op
    case InsertOp(id, _, _, _) => list + [id]
    case AttachOp(id, _, _, _, _, _) => if id in list then list else list + [id]
    case BackendAttachOp(id, _, _, _, _, _, _) => if id in list then list else list + [id]
    case RaiseOp(id) => if id in list then Without(list, {id}) + [id] else list
    case DeleteOp(_) => Without(list, gone)
    case BackendDetachOp(_) => Without(list, gone)
    case _ => list
  }

  /** Nodes enter on top: the caller of an insert or of the backend's attach passes a whole z
      above every other. The canvas tools pass one more than a high-water mark (`CanvasRun`), the
      backend's caller one more than the largest z. */
  ghost predicate EntersOnTop(d: Doc, op: Op) {
    match op
    case InsertOp(id, n, _, _) => id !in d.nodes && n.node.z > MaxZ(d.nodes) && IsWhole(n.node.z)
    case BackendAttachOp(id, _, _, _, z, _, _) => id !in d.nodes ==> z > MaxZ(d.nodes) && IsWhole(z)
    case _ => true
  }

  ghost predicate OnTopRun(d: Doc, ops: seq<Op>)
    decreases |ops|
  {
    ops == [] || (EntersOnTop(d, ops[0]) && OnTopRun(Apply(d, ops[0]), ops[1..]))
  }

  ghost function Stack(d: Doc, list: seq<string>, ops: seq<Op>): seq<string>
    decreases |ops|
  {
    if ops == [] then list
    else
      var next := Apply(d, ops[0]);
      Stack(next, Move(list, ops[0], d.nodes.Keys - next.nodes.Keys), ops[1..])
  }

  ghost predicate Sorted(list: seq<string>, nodes: Nodes) {
    && (forall k <- list :: k in nodes)
    && (forall i, j :: 0 <= i < j < |list| ==> nodes[list[i]].z < nodes[list[j]].z)
  }

  predicate IsWhole(z: real) {
    z == z.Floor as real
  }

  /** The list holds exactly the live nodes, bottom to top by z, and every z is whole. */
  ghost predicate Stacked(list: seq<string>, nodes: Nodes) {
    && Sorted(list, nodes)
    && (forall k <- nodes :: k in list && IsWhole(nodes[k].z))
  }

  /** The z-index the canvas gives a node. */
  function Rounded(z: real): int {
    (z + 0.5).Floor
  }

  lemma {:induction false} WithoutElements(list: seq<string>, gone: set<string>)
    ensures forall k :: k in Without(list, gone) <==> k in list && k !in gone
  {
    if list != [] {
      WithoutElements(list[..|list| - 1], gone);
      assert list == list[..|list| - 1] + [list[|list| - 1]];
    }
  }

  lemma LastIsTop(list: seq<string>, nodes: Nodes)
    requires list != [] && Sorted(list, nodes)
    ensures forall k <- list[..|list| - 1] :: nodes[k].z < nodes[list[|list| - 1]].z
  {
    forall k <- list[..|list| - 1]
      ensures nodes[k].z < nodes[list[|list| - 1]].z
    {
      var i :| 0 <= i < |list| - 1 && list[i] == k;
    }
  }

  lemma {:induction false} WithoutSorted(list: seq<string>, gone: set<string>, nodes: Nodes)
    requires Sorted(list, nodes)
    ensures Sorted(Without(list, gone), nodes)
    ensures forall k :: k in Without(list, gone) <==> k in list && k !in gone
  {
    WithoutElements(list, gone);
    if list != [] {
      var prefix := list[..|list| - 1];
      WithoutSorted(prefix, gone, nodes);
      LastIsTop(list, nodes);
      var kept, last := Without(prefix, gone), list[|list| - 1];
      if last !in gone {
        forall i, j | 0 <= i < j < |kept + [last]|
          ensures nodes[(kept + [last])[i]].z < nodes[(kept + [last])[j]].z
        {
          assert kept[i] in kept;
        }
      }
    }
  }

  /** Putting a node above every other one. */
  lemma PushTop(list: seq<string>, nodes: Nodes, id: string, n: Node)
    requires Sorted(list, nodes) && id !in list
    requires forall k <- list :: nodes[k].z < n.z
    ensures Sorted(list + [id], nodes[id := n])
  {
  }

  lemma MaxZWhole(nodes: Nodes)
    requires forall k <- nodes :: IsWhole(nodes[k].z)
    ensures IsWhole(MaxZ(nodes)) && IsWhole(MaxZ(nodes) + 1.0)
  {
    var m := MaxZ(nodes);
    assert IsWhole(m);
    assert (m + 1.0).Floor == m.Floor + 1;
  }

  lemma TopStep(list: seq<string>, nodes: Nodes, id: string, n: Node)
    requires Stacked(list, nodes) && n.z > MaxZ(nodes) && IsWhole(n.z)
    ensures Stacked(Without(list, {id}) + [id], nodes[id := n])
  {
    WithoutSorted(list, {id}, nodes);
    PushTop(Without(list, {id}), nodes, id, n);
  }

  lemma {:induction false} WithoutAbsent(list: seq<string>, gone: set<string>)
    requires forall k <- list :: k !in gone
    ensures Without(list, gone) == list
  {
    if list != [] {
      assert list == list[..|list| - 1] + [list[|list| - 1]];
      WithoutAbsent(list[..|list| - 1], gone);
    }
  }

  /** Removing nodes leaves the others in order. */
  lemma RemoveStep(list: seq<string>, nodes: Nodes, after: Nodes)
    requires Stacked(list, nodes) && after.Keys <= nodes.Keys
    requires forall k <- after :: after[k] == nodes[k]
    ensures Stacked(Without(list, nodes.Keys - after.Keys), after)
  {
    WithoutSorted(list, nodes.Keys - after.Keys, nodes);
  }

  lemma SameZStep(list: seq<string>, nodes: Nodes, id: string, after: Nodes)
    requires Stacked(list, nodes) && id in nodes && id in after && after == nodes[id := after[id]]
    requires after[id].z == nodes[id].z
    ensures Stacked(list, after)
  {
  }

  lemma EnterStep(d: Doc, list: seq<string>, op: Op)
    requires Stacked(list, d.nodes) && EntersOnTop(d, op)
    requires op.InsertOp? || op.AttachOp? || op.BackendAttachOp?
    ensures Stacked(Move(list, op, {}), Apply(d, op).nodes)
  {
    if op.id !in d.nodes {
      MaxZWhole(d.nodes);
      Enter(list, d.nodes, op.id, Apply(d, op).nodes);
    }
  }

  lemma SweepStep(d: Doc, list: seq<string>, op: Op)
    requires Stacked(list, d.nodes) && (op.DeleteOp? || op.BackendDetachOp?)
    ensures var after := Apply(d, op).nodes;
            Stacked(Move(list, op, d.nodes.Keys - after.Keys), after)
  {
    RemoveStep(list, d.nodes, Apply(d, op).nodes);
  }

  lemma RaiseStep(d: Doc, list: seq<string>, op: Op)
    requires Stacked(list, d.nodes) && op.RaiseOp?
    ensures Stacked(Move(list, op, {}), Apply(d, op).nodes)
  {
    if op.id in d.nodes {
      MaxZWhole(d.nodes);
      TopStep(list, d.nodes, op.id, Apply(d, op).nodes[op.id]);
    }
  }

  lemma StackStep(d: Doc, list: seq<string>, op: Op)
    requires Stacked(list, d.nodes) && EntersOnTop(d, op)
    ensures var next := Apply(d, op);
            Stacked(Move(list, op, d.nodes.Keys - next.nodes.Keys), next.nodes)
  {
    match op
    case InsertOp(_, _, _, _) => EnterStep(d, list, op);
    case AttachOp(_, _, _, _, _, _) => EnterStep(d, list, op);
    case BackendAttachOp(_, _, _, _, _, _, _) => EnterStep(d, list, op);
    case RaiseOp(_) => RaiseStep(d, list, op);
    case DeleteOp(_) => SweepStep(d, list, op);
    case BackendDetachOp(_) => SweepStep(d, list, op);
    case _ => FlatStep(d, list, op);
  }

  /** Geometry, anchors and text change no z. */
  lemma FlatStep(d: Doc, list: seq<string>, op: Op)
    requires Stacked(list, d.nodes)
    requires Touches(op)
    ensures Stacked(list, Apply(d, op).nodes)
  {
    KeepsOthers(d, op);
    if op.id in d.nodes {
      SameZStep(list, d.nodes, op.id, Apply(d, op).nodes);
    }
  }

  lemma Enter(list: seq<string>, nodes: Nodes, id: string, after: Nodes)
    requires Stacked(list, nodes) && id !in nodes && id in after && after == nodes[id := after[id]]
    requires after[id].z > MaxZ(nodes) && IsWhole(after[id].z)
    ensures Stacked(list + [id], after)
  {
    WithoutAbsent(list, {id});
    TopStep(list, nodes, id, after[id]);
  }

  /** Over every run whose nodes enter on top, ordering the document by z is the list. */
  lemma {:induction false} StackingRefines(d: Doc, list: seq<string>, ops: seq<Op>)
    requires Stacked(list, d.nodes) && OnTopRun(d, ops)
    ensures Stacked(Stack(d, list, ops), Run(d, ops).nodes)
    decreases |ops|
  {
    if ops != [] {
      var next := Apply(d, ops[0]);
      StackStep(d, list, ops[0]);
      StackingRefines(next, Move(list, ops[0], d.nodes.Keys - next.nodes.Keys), ops[1..]);
    }
  }

  // ---------- the canvas's high-water mark ----------

  /** The mark the canvas keeps of the largest z it has seen or given: it never goes down. */
  function Raised(mark: real, z: real): real {
    if z > mark then z else mark
  }

  /** A run whose inserts take one more than the mark, and whose mark sees every change. */
  ghost predicate CanvasRun(d: Doc, mark: real, ops: seq<Op>)
    decreases |ops|
  {
    ops == [] ||
    (&& (ops[0].InsertOp? ==> ops[0].id !in d.nodes && ops[0].n.node.z == mark + 1.0)
     && (ops[0].BackendAttachOp? && ops[0].id !in d.nodes ==> ops[0].z == MaxZ(d.nodes) + 1.0)
     && CanvasRun(Apply(d, ops[0]), Raised(mark, MaxZ(Apply(d, ops[0]).nodes)), ops[1..]))
  }

  /** Deleting the top node, or coming from a workspace with a higher one, leaves the mark above
      every z; inserts by the mark still enter on top. */
  lemma {:induction false} CanvasEntersOnTop(d: Doc, mark: real, list: seq<string>, ops: seq<Op>)
    requires Stacked(list, d.nodes) && CanvasRun(d, mark, ops)
    requires mark >= MaxZ(d.nodes) && IsWhole(mark)
    ensures OnTopRun(d, ops)
    decreases |ops|
  {
    if ops != [] {
      MaxZWhole(d.nodes);
      assert (mark + 1.0).Floor == mark.Floor + 1;
      var next := Apply(d, ops[0]);
      StackStep(d, list, ops[0]);
      MaxZWhole(next.nodes);
      CanvasEntersOnTop(next, Raised(mark, MaxZ(next.nodes)),
                        Move(list, ops[0], d.nodes.Keys - next.nodes.Keys), ops[1..]);
    }
  }

  /** The nearest whole number, the upper one of two. */
  lemma RoundedIsNearest(z: real)
    ensures z - 0.5 < Rounded(z) as real <= z + 0.5
  {
  }

  /** Rounding z to a z-index keeps the order. */
  lemma RoundedOrder(list: seq<string>, nodes: Nodes, i: nat, j: nat)
    requires Stacked(list, nodes) && i < j < |list|
    ensures Rounded(nodes[list[i]].z) < Rounded(nodes[list[j]].z)
  {
    var a, b := nodes[list[i]].z, nodes[list[j]].z;
    assert IsWhole(a) && IsWhole(b);
    assert Rounded(a) == a.Floor && Rounded(b) == b.Floor;
  }

  // ---------- window-only runs: a plain move-to-top list ----------

  /** Attach, raise and delete, with geometry changes between them. */
  predicate WindowOp(op: Op) {
    op.AttachOp? || op.BackendAttachOp? || op.RaiseOp? || op.DeleteOp? || op.BackendDetachOp? ||
    op.BoundsOp? || op.WindowSizeOp? || op.WindowPositionOp?
  }

  /** The specification: attach and raise move to the end, delete removes. */
  function MoveToTop(list: seq<string>, ops: seq<Op>): seq<string>
    decreases |ops|
  {
    if ops == [] then list else MoveToTop(Move(list, ops[0], {ops[0].id}), ops[1..])
  }

  ghost predicate NoEdges(nodes: Nodes) {
    forall k <- nodes :: nodes[k].edge.None?
  }

  lemma NothingSwept(d: Doc, list: seq<string>, op: Op)
    requires NoEdges(d.nodes) && Stacked(list, d.nodes) && WindowOp(op)
    ensures NoEdges(Apply(d, op).nodes)
    ensures var gone := d.nodes.Keys - Apply(d, op).nodes.Keys;
            Move(list, op, gone) == Move(list, op, {op.id})
  {
    var gone := d.nodes.Keys - Apply(d, op).nodes.Keys;
    if op.DeleteOp? || op.BackendDetachOp? {
      if op.id in d.nodes {
        assert gone == {op.id};
      } else {
        assert gone == {};
        WithoutAbsent(list, {op.id});
        WithoutAbsent(list, gone);
      }
    }
  }

  lemma {:induction false} StackIsMoveToTop(d: Doc, list: seq<string>, ops: seq<Op>)
    requires NoEdges(d.nodes) && Stacked(list, d.nodes) && OnTopRun(d, ops)
    requires forall op <- ops :: WindowOp(op)
    ensures Stack(d, list, ops) == MoveToTop(list, ops)
    decreases |ops|
  {
    if ops != [] {
      var next := Apply(d, ops[0]);
      NothingSwept(d, list, ops[0]);
      StackStep(d, list, ops[0]);
      StackIsMoveToTop(next, Move(list, ops[0], {ops[0].id}), ops[1..]);
    }
  }

  /** Over every run of attach, raise and delete from an empty document, the windows ordered
      by rounded z are exactly the move-to-top list. */
  lemma StackingOrder(ops: seq<Op>)
    requires OnTopRun(EmptyDoc, ops) && forall op <- ops :: WindowOp(op)
    ensures var list, nodes := MoveToTop([], ops), Run(EmptyDoc, ops).nodes;
            && (forall k :: k in list <==> k in nodes)
            && (forall i, j :: 0 <= i < j < |list| ==> Rounded(nodes[list[i]].z) < Rounded(nodes[list[j]].z))
  {
    StackingRefines(EmptyDoc, [], ops);
    StackIsMoveToTop(EmptyDoc, [], ops);
    var list, nodes := MoveToTop([], ops), Run(EmptyDoc, ops).nodes;
    forall i, j | 0 <= i < j < |list|
      ensures Rounded(nodes[list[i]].z) < Rounded(nodes[list[j]].z)
    {
      RoundedOrder(list, nodes, i, j);
    }
  }
}
