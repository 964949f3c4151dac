/** The workspace document of one replica: a map of OCIF nodes and a map of resources, and
    what each operation of the backend and of the frontend does to it. */
module Ocif {
  import opened Prelude

  datatype RectExt = RectExt(strokeWidth: Option<real>, strokeColor: Option<string>, fillColor: Option<string>)

  datatype PathExt = PathExt(
    points: seq<real>, strokeWidth: Option<real>, strokeColor: Option<string>, fillColor: Option<string>)

  datatype ArrowExt = ArrowExt(startX: real, startY: real, endX: real, endY: real)

  /** A string in the document is either a scalar or a text object. The frontend reads both
      as strings; the backend's `read_string` sees only scalars. */
  datatype Stored = Scalar(id: string) | Text(id: string)

  datatype EdgeExt = EdgeExt(start: Option<Stored>, end: Option<Stored>, directed: bool)

  datatype TextStyleExt = TextStyleExt(
    fontSizePx: Option<real>, fontFamily: Option<string>, bold: Option<bool>, italic: Option<bool>)

  datatype WindowExt = WindowExt(windowId: string, sidecarId: string)

  datatype Node = Node(
    x: real, y: real, z: real, width: real, height: real,
    rect: Option<RectExt>,
    path: Option<PathExt>,
    arrow: Option<ArrowExt>,
    edge: Option<EdgeExt>,
    textStyle: Option<TextStyleExt>,
    window: Option<WindowExt>,
    resource: Option<string>)

  datatype Representation = Representation(mimeType: string, content: string)

  datatype Resource = Resource(representations: seq<Representation>)

  type Nodes = map<string, Node>
  type Resources = map<string, Resource>

  datatype Doc = Doc(nodes: Nodes, resources: Resources)

  const EmptyDoc := Doc(map[], map[])

  const PLAIN := "text/plain"

  // ---------- stacking ----------

  /** The largest z, and at least 0. */
  ghost predicate IsMaxZ(nodes: Nodes, m: real) {
    && 0.0 <= m
    && (forall k <- nodes :: nodes[k].z <= m)
    && (m == 0.0 || exists k <- nodes :: nodes[k].z == m)
  }

  lemma MaxZExists(nodes: Nodes)
    ensures exists m :: IsMaxZ(nodes, m)
    decreases |nodes|
  {
    if nodes.Keys == {} {
      assert IsMaxZ(nodes, 0.0);
    } else {
      var k :| k in nodes.Keys;
      var rest := nodes - {k};
      assert |rest| < |nodes| by {
        assert rest.Keys == nodes.Keys - {k};
      }
      MaxZExists(rest);
      var m :| IsMaxZ(rest, m);
      assert forall j <- nodes :: j == k || (j in rest && rest[j] == nodes[j]);
      if nodes[k].z > m {
        assert IsMaxZ(nodes, nodes[k].z);
      } else {
        if m != 0.0 {
          var w :| w in rest && rest[w].z == m;
          assert nodes[w].z == m;
        }
        assert IsMaxZ(nodes, m);
      }
    }
  }

  ghost function MaxZ(nodes: Nodes): (m: real)
    ensures IsMaxZ(nodes, m)
  {
    MaxZExists(nodes);
    var m :| IsMaxZ(nodes, m);
    m
  }

  ghost function Raise(nodes: Nodes, id: string): Nodes {
    if id !in nodes then nodes else nodes[id := nodes[id].(z := MaxZ(nodes) + 1.0)]
  }

  // ---------- insertion ----------

  /** A JavaScript string that is absent or empty is falsy. */
  predicate Truthy(s: Option<string>) {
    s.Some? && s.value != ""
  }

  /** What a caller passes to insert: the node, and the text and mime type that seed its resource. */
  datatype NewNode = NewNode(node: Node, text: Option<string>, mimeType: Option<string>)

  function GetOr<T>(o: Option<T>, default: T): T {
    if o.Some? then o.value else default
  }

  predicate AutoFits(n: NewNode) {
    n.node.rect.None? && n.node.arrow.None? && n.node.path.None? && n.node.window.None? &&
    GetOr(n.mimeType, PLAIN) == PLAIN
  }

  /** The resource id an insert uses: none for a window, else the caller's or a new one. */
  function ResourceFor(n: NewNode, newId: string): Option<string> {
    var r := if n.node.window.Some? then None else Some(GetOr(n.node.resource, newId));
    if Truthy(r) then r else None
  }

  /** Inserting a node. `newId` is the random resource id, `measured` the measured text bounds. */
  function Insert(d: Doc, id: string, n: NewNode, newId: string, measured: (real, real)): Doc {
    var r := ResourceFor(n, newId);
    var resources :=
      if r.Some? && r.value !in d.resources
      then d.resources[r.value := Resource([Representation(GetOr(n.mimeType, PLAIN), GetOr(n.text, ""))])]
      else d.resources;
    var node := n.node.(resource := r);
    Doc(d.nodes[id := if AutoFits(n) then node.(width := measured.0, height := measured.1) else node], resources)
  }

  function WindowNode(windowId: string, sidecarId: string, x: real, y: real, z: real, width: real, height: real): Node {
    Node(x, y, z, width, height, None, None, None, None, None, Some(WindowExt(windowId, sidecarId)), None)
  }

  /** The frontend's attach: on top, and nothing when the id is taken. */
  ghost function Attach(nodes: Nodes, windowId: string, sidecarId: string,
                        x: real, y: real, width: real, height: real): Nodes
  {
    if windowId in nodes then nodes
    else nodes[windowId := WindowNode(windowId, sidecarId, x, y, MaxZ(nodes) + 1.0, width, height)]
  }

  /** The backend's attach, with the caller's z. */
  function AttachAt(nodes: Nodes, windowId: string, sidecarId: string,
                    x: real, y: real, z: real, width: real, height: real): Nodes
  {
    if windowId in nodes then nodes
    else nodes[windowId := WindowNode(windowId, sidecarId, x, y, z, width, height)]
  }

  // ---------- geometry ----------

  function SetBounds(nodes: Nodes, id: string, x: real, y: real, width: real, height: real): Nodes {
    if id !in nodes then nodes else nodes[id := nodes[id].(x := x, y := y, width := width, height := height)]
  }

  /** The backend mirrors geometry onto window nodes only. */
  function SetWindowSize(nodes: Nodes, id: string, width: real, height: real): Nodes {
    if id !in nodes || nodes[id].window.None? then nodes
    else nodes[id := nodes[id].(width := width, height := height)]
  }

  function SetWindowPosition(nodes: Nodes, id: string, x: real, y: real): Nodes {
    if id !in nodes || nodes[id].window.None? then nodes
    else nodes[id := nodes[id].(x := x, y := y)]
  }

  // ---------- edges ----------

  datatype End = Start | Finish

  datatype Anchor = ToNode(target: Stored) | Free(x: real, y: real)

  function Min(a: real, b: real): real {
    if a < b then a else b
  }

  function AbsDiff(a: real, b: real): real {
    if a < b then b - a else a - b
  }

  function WithEnd(e: EdgeExt, end: End, target: Option<Stored>): EdgeExt {
    match end
    case Start => e.(start := target)
    case Finish => e.(end := target)
  }

  /** The edge of an arrow after one of its ends is anchored or freed. An edge with no end
      left is dropped. */
  function AnchoredEdge(edge: Option<EdgeExt>, end: End, anchor: Anchor): Option<EdgeExt> {
    match anchor
    case ToNode(target) => Some(WithEnd(GetOr(edge, EdgeExt(None, None, true)), end, Some(target)))
    case Free(_, _) =>
      if edge.None? then None
      else
        var e := WithEnd(edge.value, end, None);
        if e.start.None? && e.end.None? then None else Some(e)
  }

  function AnchoredArrow(a: ArrowExt, end: End, anchor: Anchor): ArrowExt {
    match anchor
    case ToNode(_) => a
    case Free(x, y) => if end.Start? then a.(startX := x, startY := y) else a.(endX := x, endY := y)
  }

  function SetAnchor(nodes: Nodes, id: string, end: End, anchor: Anchor): Nodes {
    if id !in nodes || nodes[id].arrow.None? then nodes
    else
      var n := nodes[id];
      var a := AnchoredArrow(n.arrow.value, end, anchor);
      nodes[id := n.(arrow := Some(a),
                     edge := AnchoredEdge(n.edge, end, anchor),
                     x := Min(a.startX, a.endX),
                     y := Min(a.startY, a.endY),
                     width := AbsDiff(a.endX, a.startX),
                     height := AbsDiff(a.endY, a.startY))]
  }

  /** One end of the edge names the node, however it is stored. */
  predicate Names(n: Node, id: string) {
    n.edge.Some? &&
    var e := n.edge.value;
    (e.start.Some? && e.start.value.id == id) || (e.end.Some? && e.end.value.id == id)
  }

  /** One end of the edge names the node as a string scalar, which is all the backend sees. */
  predicate NamesByScalar(n: Node, id: string) {
    n.edge.Some? && (n.edge.value.start == Some(Scalar(id)) || n.edge.value.end == Some(Scalar(id)))
  }

  /** The frontend's delete: the node, and every other node whose edge names it. */
  function Delete(nodes: Nodes, id: string): Nodes {
    if id !in nodes then nodes
    else map k | k in nodes && k != id && !Names(nodes[k], id) :: nodes[k]
  }

  /** The backend's detach: the node, and every other node whose edge names it by scalar. */
  function Detach(nodes: Nodes, id: string): Nodes {
    if id !in nodes then nodes
    else map k | k in nodes && k != id && !NamesByScalar(nodes[k], id) :: nodes[k]
  }

  function WindowIds(nodes: Nodes): set<string> {
    set k | k in nodes && nodes[k].window.Some?
  }

  // ---------- text ----------

  /** The first representation of a node's resource, if there is one. */
  function Rep(resources: Resources, n: Node): Option<Representation> {
    if !Truthy(n.resource) || n.resource.value !in resources then None
    else
      var reps := resources[n.resource.value].representations;
      if reps == [] then None else Some(reps[0])
  }

  function ResolveText(resources: Resources, n: Node): string {
    var rep := Rep(resources, n);
    if rep.Some? then rep.value.content else ""
  }

  function ResolveMimeType(resources: Resources, n: Node): string {
    var rep := Rep(resources, n);
    if rep.Some? then rep.value.mimeType else PLAIN
  }

  /** The resource after its first representation is written, or created. */
  function Written(r: Option<Resource>, text: string): Resource {
    if r.Some? && r.value.representations != []
    then Resource(r.value.representations[0 := r.value.representations[0].(content := text)])
    else Resource([Representation(PLAIN, text)])
  }

  function ResourceOf(n: Node, newId: string): string {
    if Truthy(n.resource) then n.resource.value else newId
  }

  predicate AutoResizes(resources: Resources, n: Node) {
    n.rect.None? && n.arrow.None? && ResolveMimeType(resources, n) == PLAIN
  }

  /** Setting a node's text through its resource; plain text-only nodes take the measured
      bounds. `newId` is the random id used when the node has no resource. */
  function SetText(d: Doc, id: string, text: string, newId: string, measured: (real, real)): Doc {
    if id !in d.nodes then d
    else
      var r := ResourceOf(d.nodes[id], newId);
      var present := if Truthy(d.nodes[id].resource) && r in d.resources then Some(d.resources[r]) else None;
      var resources := d.resources[r := Written(present, text)];
      var node := d.nodes[id].(resource := Some(r));
      Doc(d.nodes[id := if AutoResizes(resources, node)
                        then node.(width := measured.0, height := measured.1) else node],
          resources)
  }
}
