/** Writing text through the shared resource table. */
module SharedText {
  import opened Prelude
  import opened Ocif

  /** Two nodes show the same text because they reference the same resource. */
  predicate Shares(a: Node, b: Node) {
    Truthy(a.resource) && a.resource == b.resource
  }

  /** The random id is not empty, names no resource, and no node references it. */
  ghost predicate Unused(d: Doc, newId: string) {
    newId != "" && newId !in d.resources && forall k <- d.nodes :: d.nodes[k].resource != Some(newId)
  }

  /** The written resource resolves to the new text and keeps its mime type. */
  lemma WrittenResolves(resources: Resources, r: string, text: string, n: Node)
    requires r != "" && n.resource == Some(r)
    ensures var written := Written(if r in resources then Some(resources[r]) else None, text);
            && ResolveText(resources[r := written], n) == text
            && ResolveMimeType(resources[r := written], n) == ResolveMimeType(resources, n)
  {
  }

  /** After setting a node's text, in each state of its resource (none, dangling, empty,
      present): the node and every node sharing its resource resolve to the new text, every
      other node's text is unchanged, no node's mime type changes, and no other node or
      resource is touched. */
  lemma TextReachesExactlyTheSharers(d: Doc, id: string, text: string, newId: string, measured: (real, real))
    requires id in d.nodes && Unused(d, newId)
    ensures var after := SetText(d, id, text, newId, measured);
            && after.nodes.Keys == d.nodes.Keys
            && (forall k <- d.nodes ::
                  && (k != id ==> after.nodes[k] == d.nodes[k])
                  && ResolveText(after.resources, after.nodes[k]) ==
                     (if k == id || Shares(d.nodes[id], d.nodes[k]) then text else ResolveText(d.resources, d.nodes[k]))
                  && ResolveMimeType(after.resources, after.nodes[k]) == ResolveMimeType(d.resources, d.nodes[k]))
            && (forall r <- d.resources :: r != ResourceOf(d.nodes[id], newId) ==>
                  r in after.resources && after.resources[r] == d.resources[r])
  {
    var after := SetText(d, id, text, newId, measured);
    var r := ResourceOf(d.nodes[id], newId);
    forall k <- d.nodes
      ensures ResolveText(after.resources, after.nodes[k]) ==
              if k == id || Shares(d.nodes[id], d.nodes[k]) then text else ResolveText(d.resources, d.nodes[k])
      ensures ResolveMimeType(after.resources, after.nodes[k]) == ResolveMimeType(d.resources, d.nodes[k])
    {
      if k == id || Shares(d.nodes[id], d.nodes[k]) {
        WrittenResolves(d.resources, r, text, after.nodes[k]);
        if k == id && !Truthy(d.nodes[id].resource) {
          assert ResolveMimeType(d.resources, after.nodes[k]) == PLAIN;
        }
      }
    }
  }

  /** The inserted node brings a resource that is not there yet. */
  predicate Seeds(d: Doc, n: NewNode, newId: string) {
    var r := ResourceFor(n, newId);
    r.Some? && r.value !in d.resources
  }

  /** A node inserted with a resource that is not there yet, its own or one the caller named,
      shows the text and mime type it was seeded with, and so does every node that already
      referenced that resource. A resource that is there keeps its text, and the seed is ignored.
      A window, or a node that names the empty resource, gets none and shows nothing. No other
      node's text or mime type changes. */
  lemma InsertShowsSeed(d: Doc, id: string, n: NewNode, newId: string, measured: (real, real))
    ensures var after, r := Insert(d, id, n, newId, measured), ResourceFor(n, newId);
            var mine := after.nodes[id];
            && mine.resource == r
            && (if Seeds(d, n, newId) then
                  && ResolveText(after.resources, mine) == GetOr(n.text, "")
                  && ResolveMimeType(after.resources, mine) == GetOr(n.mimeType, PLAIN)
                else
                  && after.resources == d.resources
                  && (r.None? ==> ResolveText(d.resources, mine) == "" && ResolveMimeType(d.resources, mine) == PLAIN))
            && (forall k <- d.nodes :: k != id ==>
                  && after.nodes[k] == d.nodes[k]
                  && (if Seeds(d, n, newId) && d.nodes[k].resource == r then
                        && ResolveText(after.resources, d.nodes[k]) == GetOr(n.text, "")
                        && ResolveMimeType(after.resources, d.nodes[k]) == GetOr(n.mimeType, PLAIN)
                      else
                        && ResolveText(after.resources, d.nodes[k]) == ResolveText(d.resources, d.nodes[k])
                        && ResolveMimeType(after.resources, d.nodes[k]) == ResolveMimeType(d.resources, d.nodes[k])))
  {
    var after, r := Insert(d, id, n, newId, measured), ResourceFor(n, newId);
    if Seeds(d, n, newId) {
      forall k <- d.nodes
        ensures Rep(after.resources, d.nodes[k]) ==
                if d.nodes[k].resource == r then Some(Representation(GetOr(n.mimeType, PLAIN), GetOr(n.text, "")))
                else Rep(d.resources, d.nodes[k])
      {
      }
    }
  }

  // ---------- whole runs of edits ----------

  datatype Edit = Edit(id: string, text: string, newId: string, measured: (real, real))

  function Edited(d: Doc, edits: seq<Edit>): Doc
    decreases |edits|
  {
    if edits == [] then d
    else Edited(SetText(d, edits[0].id, edits[0].text, edits[0].newId, edits[0].measured), edits[1..])
  }

  /** Edits of live nodes, each with an unused random id. */
  ghost predicate FreshEdits(d: Doc, edits: seq<Edit>)
    decreases |edits|
  {
    edits == [] ||
    var e := edits[0];
    && e.id in d.nodes && Unused(d, e.newId)
    && FreshEdits(SetText(d, e.id, e.text, e.newId, e.measured), edits[1..])
  }

  /** The text of the last edit of the node or of a node sharing with it in the given map. */
  ghost function LastText(nodes: Nodes, k: string, text: string, edits: seq<Edit>): string
    requires k in nodes
    decreases |edits|
  {
    if edits == [] then text
    else
      var id := edits[0].id;
      var reaches := id == k || (id in nodes && Shares(nodes[id], nodes[k]));
      LastText(nodes, k, if reaches then edits[0].text else text, edits[1..])
  }

  /** Distinct nodes share in one map exactly when they share in the other. */
  ghost predicate SameSharing(a: Nodes, b: Nodes) {
    && a.Keys == b.Keys
    && forall j <- a, k <- a :: j != k ==> (Shares(a[j], a[k]) <==> Shares(b[j], b[k]))
  }

  /** A first resource is shared with nobody, so an edit never changes who shares. */
  lemma EditKeepsSharing(d: Doc, e: Edit)
    requires e.id in d.nodes && Unused(d, e.newId)
    ensures SameSharing(d.nodes, SetText(d, e.id, e.text, e.newId, e.measured).nodes)
  {
  }

  /** Over every run of edits, each node shows the last text written to it or to a node that
      shared its resource at the start. */
  lemma {:induction false} LastWriteShows(start: Nodes, d: Doc, edits: seq<Edit>, k: string)
    requires SameSharing(start, d.nodes) && FreshEdits(d, edits) && k in d.nodes
    ensures var after := Edited(d, edits);
            && k in after.nodes
            && ResolveText(after.resources, after.nodes[k]) ==
               LastText(start, k, ResolveText(d.resources, d.nodes[k]), edits)
            && ResolveMimeType(after.resources, after.nodes[k]) == ResolveMimeType(d.resources, d.nodes[k])
    decreases |edits|
  {
    if edits != [] {
      var e := edits[0];
      var next := SetText(d, e.id, e.text, e.newId, e.measured);
      EditKeepsSharing(d, e);
      TextReachesExactlyTheSharers(d, e.id, e.text, e.newId, e.measured);
      LastWriteShows(start, next, edits[1..], k);
    }
  }
}
