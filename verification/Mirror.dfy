/** The reactive mirror of document nodes: one collection of rows for all workspaces, replaced
    workspace by workspace with each new snapshot. */
module Mirror {
  import opened Prelude
  import opened Ocif

  /** One node of a snapshot, with its resolved text and mime type. */
  datatype SnapNode = SnapNode(node: Node, text: Option<string>, mimeType: Option<string>)

  type Snapshot = map<string, SnapNode>

  /** A row copies the node's fields next to its key, its text and its mime type. */
  datatype Row = Row(
    id: string, workspaceId: string, nodeId: string,
    node: Node, text: string, textMimeType: Option<string>)

  type Rows = map<string, Row>

  function Key(ws: string, nodeId: string): string {
    ws + ":" + nodeId
  }

  function Project(ws: string, nodeId: string, s: SnapNode): Row {
    Row(Key(ws, nodeId), ws, nodeId, s.node, GetOr(s.text, ""), s.mimeType)
  }

  function Keys(ws: string, snap: Snapshot): set<string> {
    set n | n in snap :: Key(ws, n)
  }

  lemma KeyCancels(ws: string, n: string, m: string)
    requires Key(ws, n) == Key(ws, m)
    ensures n == m
  {
    assert n == Key(ws, n)[|ws| + 1..] && m == Key(ws, m)[|ws| + 1..];
  }

  lemma KeysCancel(ws: string)
    ensures forall n, m :: Key(ws, n) == Key(ws, m) ==> n == m
  {
    forall n: string, m: string | Key(ws, n) == Key(ws, m)
      ensures n == m
    {
      KeyCancels(ws, n, m);
    }
  }

  /** The rows a snapshot calls for. */
  function Projection(ws: string, snap: Snapshot): (r: Rows)
    ensures r.Keys == Keys(ws, snap)
    ensures forall n <- snap :: Key(ws, n) in r && r[Key(ws, n)] == Project(ws, n, snap[n])
    ensures forall k <- r :: r[k].workspaceId == ws
  {
    KeysCancel(ws);
    map n | n in snap :: Key(ws, n) := Project(ws, n, snap[n])
  }

  function RowsOf(rows: Rows, ws: string): Rows {
    map k | k in rows && rows[k].workspaceId == ws :: rows[k]
  }

  /** The rows of other workspaces, and those whose key is among the given ones. */
  function Kept(rows: Rows, ws: string, keys: set<string>): Rows {
    map k | k in rows && (rows[k].workspaceId != ws || k in keys) :: rows[k]
  }

  /** Replacing one workspace's rows. */
  function Replaced(rows: Rows, ws: string, snap: Snapshot): Rows {
    Kept(rows, ws, {}) + Projection(ws, snap)
  }

  // ---------- the store ----------

  /** One write of a transaction. The store ignores an insert of a present key and an update
      of an absent one. */
  datatype Write = InsertRow(value: Row) | UpdateRow(value: Row) | DeleteRow(key: string)

  function Apply(rows: Rows, w: Write): Rows {
    match w
    case InsertRow(v) => if v.id in rows then rows else rows[v.id := v]
    case UpdateRow(v) => if v.id in rows then rows[v.id := v] else rows
    case DeleteRow(k) => rows - {k}
  }

  /** The store's silent no-ops, which the transaction must steer around. */
  lemma StoreIgnores(rows: Rows, v: Row)
    ensures v.id in rows ==> Apply(rows, InsertRow(v)) == rows && Apply(rows, UpdateRow(v)) == rows[v.id := v]
    ensures v.id !in rows ==> Apply(rows, UpdateRow(v)) == rows && Apply(rows, InsertRow(v)) == rows[v.id := v]
  {
  }

  function Commit(rows: Rows, writes: seq<Write>): Rows {
    if writes == [] then rows else Apply(Commit(rows, writes[..|writes| - 1]), writes[|writes| - 1])
  }

  lemma CommitSnoc(rows: Rows, writes: seq<Write>, w: Write)
    ensures Commit(rows, writes + [w]) == Apply(Commit(rows, writes), w)
  {
    assert (writes + [w])[..|writes|] == writes;
  }

  class Collection {
    var rows: Rows

    constructor ()
      ensures rows == map[]
    {
      rows := map[];
    }

    /** The deletes of a snapshot: this workspace's rows that are no longer in it. */
    method StaleDeletes(ws: string, incoming: set<string>) returns (writes: seq<Write>)
      ensures Commit(rows, writes) == Kept(rows, ws, incoming)
    {
      writes := [];
      var rest := rows.Keys;
      assert Kept(rows, ws, incoming + rest) == rows;
      while rest != {}
        invariant rest <= rows.Keys
        invariant Commit(rows, writes) == Kept(rows, ws, incoming + rest)
        decreases |rest|
      {
        var key := Pick(rest);
        if rows[key].workspaceId == ws && key !in incoming {
          CommitSnoc(rows, writes, DeleteRow(key));
          writes := writes + [DeleteRow(key)];
        }
        rest := rest - {key};
      }
      assert incoming + rest == incoming;
    }

    /** The inserts and updates of a snapshot, after its deletes. */
    method Upserts(ws: string, snap: Snapshot, incoming: set<string>, deletes: seq<Write>) returns (writes: seq<Write>)
      requires incoming == Keys(ws, snap) && Staged(rows, ws, incoming, deletes, snap - snap.Keys)
      ensures Staged(rows, ws, incoming, writes, snap - {})
    {
      writes := deletes;
      var rest := snap.Keys;
      while rest != {}
        invariant rest <= snap.Keys
        invariant Staged(rows, ws, incoming, writes, snap - rest)
        decreases |rest|
      {
        var nodeId := Pick(rest);
        StagedNext(rows, ws, snap, writes, rest, nodeId);
        writes := writes + [Upsert(rows, Project(ws, nodeId, snap[nodeId]))];
        rest := rest - {nodeId};
      }
    }

    /** Replaces one workspace's rows with its snapshot in a single transaction. */
    method ApplySnapshot(ws: string, snap: Snapshot)
      modifies this
      ensures rows == Replaced(old(rows), ws, snap)
    {
      var incoming := Keys(ws, snap);
      var deletes := StaleDeletes(ws, incoming);
      StagedStart(rows, ws, incoming, deletes);
      assert snap - snap.Keys == map[] && snap - {} == snap;
      var writes := Upserts(ws, snap, incoming, deletes);
      KeptReplaced(rows, ws, snap);
      rows := Commit(rows, writes);
    }
  }

  /** An update for a key that is present, an insert for one that is not. */
  function Upsert(rows: Rows, v: Row): Write {
    if v.id in rows then UpdateRow(v) else InsertRow(v)
  }

  /** The transaction so far: the deletes, then the rows of the nodes done. */
  ghost predicate Staged(rows: Rows, ws: string, incoming: set<string>, writes: seq<Write>, done: Snapshot) {
    Commit(rows, writes) == Kept(rows, ws, incoming) + Projection(ws, done)
  }

  lemma StagedStart(rows: Rows, ws: string, incoming: set<string>, writes: seq<Write>)
    requires Commit(rows, writes) == Kept(rows, ws, incoming)
    ensures Staged(rows, ws, incoming, writes, map[])
  {
    assert Projection(ws, map[]) == map[];
  }

  /** Insert for an absent key and update for a present one: the write takes effect. */
  lemma WriteTakesEffect(kept: Rows, projected: Rows, v: Row)
    requires v.id !in projected
    ensures Apply(kept + projected, Upsert(kept, v)) == kept + projected[v.id := v]
  {
  }

  lemma StagedStep(rows: Rows, ws: string, incoming: set<string>, writes: seq<Write>,
                   done: Snapshot, n: string, s: SnapNode)
    requires n !in done && Key(ws, n) in incoming && Staged(rows, ws, incoming, writes, done)
    ensures Staged(rows, ws, incoming, writes + [Upsert(rows, Project(ws, n, s))], done[n := s])
  {
    var value := Project(ws, n, s);
    CommitSnoc(rows, writes, Upsert(rows, value));
    ProjectionSnoc(ws, done, n, s);
    WriteTakesEffect(Kept(rows, ws, incoming), Projection(ws, done), value);
  }

  lemma StagedNext(rows: Rows, ws: string, snap: Snapshot, writes: seq<Write>, rest: set<string>, n: string)
    requires n in rest && rest <= snap.Keys && Staged(rows, ws, Keys(ws, snap), writes, snap - rest)
    ensures Staged(rows, ws, Keys(ws, snap), writes + [Upsert(rows, Project(ws, n, snap[n]))], snap - (rest - {n}))
  {
    assert (snap - rest)[n := snap[n]] == snap - (rest - {n});
    StagedStep(rows, ws, Keys(ws, snap), writes, snap - rest, n, snap[n]);
  }

  lemma KeyIsNew(ws: string, done: Snapshot, n: string)
    requires n !in done
    ensures Key(ws, n) !in Keys(ws, done)
  {
    forall m <- done
      ensures Key(ws, m) != Key(ws, n)
    {
      if Key(ws, m) == Key(ws, n) {
        KeyCancels(ws, m, n);
      }
    }
  }

  lemma KeysSnoc(ws: string, done: Snapshot, n: string, s: SnapNode)
    ensures Keys(ws, done[n := s]) == Keys(ws, done) + {Key(ws, n)}
  {
  }

  lemma ProjectionExtends(ws: string, done: Snapshot, n: string, s: SnapNode, k: string)
    requires n !in done && k in Keys(ws, done)
    ensures k in Keys(ws, done[n := s]) && Projection(ws, done[n := s])[k] == Projection(ws, done)[k]
  {
    var m :| m in done && Key(ws, m) == k;
    assert m in done[n := s] && done[n := s][m] == done[m];
  }

  lemma ProjectionSnoc(ws: string, done: Snapshot, n: string, s: SnapNode)
    requires n !in done
    ensures Key(ws, n) !in Projection(ws, done)
    ensures Projection(ws, done[n := s]) == Projection(ws, done)[Key(ws, n) := Project(ws, n, s)]
  {
    KeyIsNew(ws, done, n);
    KeysSnoc(ws, done, n, s);
    forall k <- Projection(ws, done)
      ensures k in Keys(ws, done[n := s]) && Projection(ws, done[n := s])[k] == Projection(ws, done)[k]
    {
      ProjectionExtends(ws, done, n, s, k);
    }
  }

  /** The rows kept by the deletes are the other workspaces' rows, up to the incoming keys. */
  lemma KeptReplaced(rows: Rows, ws: string, snap: Snapshot)
    ensures Kept(rows, ws, Keys(ws, snap)) + Projection(ws, snap) == Replaced(rows, ws, snap)
  {
  }

  // ---------- agreement ----------

  /** The mirrored workspace is exactly the projection of its snapshot. */
  ghost predicate Agrees(rows: Rows, ws: string, snap: Snapshot) {
    RowsOf(rows, ws) == Projection(ws, snap)
  }

  /** The row of a node after a snapshot: under "workspace:node", with the node, its mime type and its
      text, or "" for no text. */
  lemma RowExact(rows: Rows, ws: string, snap: Snapshot, n: string)
    requires n in snap
    ensures var after, k := Replaced(rows, ws, snap), ws + ":" + n;
            && k in after
            && after[k].id == k && after[k].workspaceId == ws && after[k].nodeId == n
            && after[k].node == snap[n].node && after[k].textMimeType == snap[n].mimeType
            && after[k].text == match snap[n].text case Some(t) => t case None => ""
  {
    var p := Projection(ws, snap);
    assert Key(ws, n) in p && p[Key(ws, n)] == Project(ws, n, snap[n]);
  }

  ghost predicate IsNodeKey(k: string, ws: string, snap: Snapshot) {
    exists n <- snap :: k == ws + ":" + n
  }

  /** Besides those there are exactly the rows of other workspaces, unchanged, under other keys. */
  lemma OtherRowsExact(rows: Rows, ws: string, snap: Snapshot, k: string)
    requires !IsNodeKey(k, ws, snap)
    ensures var after := Replaced(rows, ws, snap);
            && (k in after <==> k in rows && rows[k].workspaceId != ws)
            && (k in after ==> after[k] == rows[k])
  {
    assert forall n <- snap :: Key(ws, n) != k;
  }

  lemma ReplacedAgrees(rows: Rows, ws: string, snap: Snapshot)
    ensures Agrees(Replaced(rows, ws, snap), ws, snap)
  {
  }

  /** Another workspace's snapshot takes from this one exactly the keys they share. */
  lemma RowsOfReplaced(rows: Rows, ws: string, other: string, otherSnap: Snapshot)
    requires ws != other
    ensures RowsOf(Replaced(rows, other, otherSnap), ws) == RowsOf(rows, ws) - Keys(other, otherSnap)
  {
  }

  /** A snapshot of another workspace leaves this one's rows alone exactly when the two share
      no key. */
  lemma OthersUntouchedExactly(rows: Rows, ws: string, snap: Snapshot, other: string, otherSnap: Snapshot)
    requires ws != other && Agrees(rows, ws, snap)
    ensures Agrees(Replaced(rows, other, otherSnap), ws, snap) <==> Keys(ws, snap) !! Keys(other, otherSnap)
  {
    RowsOfReplaced(rows, ws, other, otherSnap);
    var mine := RowsOf(rows, ws);
    assert mine.Keys == Keys(ws, snap);
    RemovalIsNoOp(mine, Keys(other, otherSnap));
  }

  lemma RemovalIsNoOp(rows: Rows, keys: set<string>)
    ensures rows - keys == rows <==> rows.Keys !! keys
  {
    if !(rows.Keys !! keys) {
      var k :| k in rows.Keys && k in keys;
      assert k !in rows - keys;
    }
  }

  ghost predicate NoColon(s: string) {
    ':' !in s
  }

  /** Neither id continues the other with a colon. */
  ghost predicate Separate(a: string, b: string) {
    !(a + ":" <= b) && !(b + ":" <= a)
  }

  lemma ContinuedHasColon(a: string, b: string)
    requires a + ":" <= b
    ensures !NoColon(b)
  {
    assert b[|a|] == ':';
  }

  /** Ids without a colon are separate. */
  lemma NoColonSeparate(a: string, b: string)
    requires NoColon(a) && NoColon(b)
    ensures Separate(a, b)
  {
    if a + ":" <= b {
      ContinuedHasColon(a, b);
    }
    if b + ":" <= a {
      ContinuedHasColon(b, a);
    }
  }

  /** A key of the shorter id that is also a key of the longer one continues the shorter id. */
  lemma SharedKeyContinues(a: string, n: string, b: string, m: string)
    requires Key(a, n) == Key(b, m) && a != b && |a| <= |b|
    ensures a + ":" <= b
  {
    var k := Key(a, n);
    assert a == k[..|a|] && b == k[..|b|];
    if |a| == |b| {
      assert false;
    }
    assert b[|a|] == k[|a|] == ':';
    assert b[..|a| + 1] == k[..|a| + 1] == a + ":";
  }

  /** A longer id that continues a shorter one makes every key of its own a key of the shorter. */
  lemma ContinuedKey(a: string, b: string, m: string)
    requires a + ":" <= b
    ensures Key(a, b[|a| + 1..] + ":" + m) == Key(b, m)
  {
    assert b == a + ":" + b[|a| + 1..];
  }

  /** Two workspaces can claim one key exactly when one id continues the other with a colon. */
  lemma KeysCollideExactly(a: string, b: string)
    requires a != b
    ensures (exists n, m :: Key(a, n) == Key(b, m)) <==> !Separate(a, b)
  {
    if n, m :| Key(a, n) == Key(b, m) {
      if |a| <= |b| {
        SharedKeyContinues(a, n, b, m);
      } else {
        SharedKeyContinues(b, m, a, n);
      }
    }
    if a + ":" <= b {
      ContinuedKey(a, b, "");
    }
    if b + ":" <= a {
      ContinuedKey(b, a, "");
    }
  }

  lemma KeysDisjoint(a: string, snapA: Snapshot, b: string, snapB: Snapshot)
    requires Separate(a, b) && a != b
    ensures Keys(a, snapA) !! Keys(b, snapB)
  {
    KeysCollideExactly(a, b);
    forall n <- snapA, m <- snapB
      ensures Key(a, n) != Key(b, m)
    {
    }
  }

  datatype Update = Update(ws: string, snap: Snapshot)

  function Run(rows: Rows, updates: seq<Update>): Rows
    decreases |updates|
  {
    if updates == [] then rows else Run(Replaced(rows, updates[0].ws, updates[0].snap), updates[1..])
  }

  /** The last snapshot of a workspace in a run, or the one it started with. */
  function Latest(snap: Snapshot, updates: seq<Update>, ws: string): Snapshot
    decreases |updates|
  {
    if updates == [] then snap
    else Latest(if updates[0].ws == ws then updates[0].snap else snap, updates[1..], ws)
  }

  /** After any interleaving of snapshots, a workspace's rows are exactly the projection of its
      latest snapshot if every other workspace's id is separate from its own. */
  lemma {:induction false} MirrorAgreement(rows: Rows, updates: seq<Update>, ws: string, snap: Snapshot)
    requires Agrees(rows, ws, snap)
    requires forall i :: 0 <= i < |updates| ==> updates[i].ws == ws || Separate(ws, updates[i].ws)
    ensures Agrees(Run(rows, updates), ws, Latest(snap, updates, ws))
    decreases |updates|
  {
    if updates != [] {
      var u := updates[0];
      if u.ws == ws {
        ReplacedAgrees(rows, ws, u.snap);
        MirrorAgreement(Replaced(rows, ws, u.snap), updates[1..], ws, u.snap);
      } else {
        KeysDisjoint(ws, snap, u.ws, u.snap);
        OthersUntouchedExactly(rows, ws, snap, u.ws, u.snap);
        MirrorAgreement(Replaced(rows, u.ws, u.snap), updates[1..], ws, snap);
      }
    }
  }

  /** One snapshot of b never disturbs the rows of a. */
  ghost predicate NeverDisturbs(a: string, b: string) {
    forall rows, snap, otherSnap ::
      Agrees(rows, a, snap) ==> Agrees(Replaced(rows, b, otherSnap), a, snap)
  }

  /** A key that both snapshots claim is lost to the first workspace. */
  lemma CollisionLoses(rows: Rows, a: string, snap: Snapshot, n: string, b: string, otherSnap: Snapshot, m: string)
    requires a != b && Agrees(rows, a, snap)
    requires n in snap && m in otherSnap && Key(a, n) == Key(b, m)
    ensures !Agrees(Replaced(rows, b, otherSnap), a, snap)
  {
    assert Key(a, n) in Keys(a, snap) && Key(b, m) in Keys(b, otherSnap);
    OthersUntouchedExactly(rows, a, snap, b, otherSnap);
  }

  /** Separate ids are exactly what the mirror needs: the snapshots of b never disturb the rows of
      a, whatever they hold, if and only if neither id continues the other with a colon. */
  lemma ColonCollides(a: string, b: string)
    requires a != b
    ensures NeverDisturbs(a, b) <==> Separate(a, b)
  {
    KeysCollideExactly(a, b);
    if Separate(a, b) {
      forall rows, snap, otherSnap | Agrees(rows, a, snap)
        ensures Agrees(Replaced(rows, b, otherSnap), a, snap)
      {
        KeysDisjoint(a, snap, b, otherSnap);
        OthersUntouchedExactly(rows, a, snap, b, otherSnap);
      }
    } else {
      var n, m :| Key(a, n) == Key(b, m);
      var s := SnapNode(WindowNode(n, "", 0.0, 0.0, 0.0, 1.0, 1.0), None, None);
      var snap: Snapshot, otherSnap: Snapshot := map[n := s], map[m := s];
      ReplacedAgrees(map[], a, snap);
      CollisionLoses(Replaced(map[], a, snap), a, snap, n, b, otherSnap, m);
    }
  }
}
