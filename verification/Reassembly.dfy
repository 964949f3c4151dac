/** The frontend reassembler, as a function from state and chunk to state and output.
    The same algorithm is given for two orders on message ids: the serial-number order
    on 32-bit ids that the program uses, and plain `<` on unbounded ids. */
module Reassembly {
  import opened Prelude
  import opened Wire

  const HALF := 0x8000_0000

  datatype Order = Serial | Plain

  /** Section 3.2 of RFC 1982 for 32-bit serial numbers. */
  predicate SerialOlder(a: int, b: int) {
    a != b && (b - a) % U32_SPAN < HALF
  }

  predicate Older(o: Order, a: int, b: int) {
    match o
    case Serial => SerialOlder(a, b)
    case Plain => a < b
  }

  datatype PartialShape = Partial(chunks: seq<Option<Bytes>>, received: int, total: nat)

  /** The slot array is allocated with `total` slots and never resized. */
  type Partial = p: PartialShape | |p.chunks| == p.total witness Partial([], 0, 0)

  datatype State = State(latestSeen: Option<int>, partials: map<int, Partial>)

  const Fresh := State(None, map[])

  datatype Result = Result(state: State, out: Option<Bytes>)

  function EmptySlots(n: nat): (s: seq<Option<Bytes>>)
    ensures |s| == n && forall i :: 0 <= i < n ==> s[i] == None
  {
    seq(n, _ => None)
  }

  predicate AllFilled(slots: seq<Option<Bytes>>) {
    forall i :: 0 <= i < |slots| ==> slots[i].Some?
  }

  /** The bytes of the filled slots, in slot order. */
  function Join(slots: seq<Option<Bytes>>): Bytes {
    if slots == [] then []
    else (if slots[0].Some? then slots[0].value else []) + Join(slots[1..])
  }

  /** Move to a newer message and evict every partial strictly older than it. */
  function Advance(o: Order, s: State, id: int): State {
    if s.latestSeen.None? || Older(o, s.latestSeen.value, id)
    then State(Some(id), map k | k in s.partials && !Older(o, k, id) :: s.partials[k])
    else s
  }

  /** Store one body in its slot, and surface the message when it is the last one missing. */
  function Fill(s: State, id: int, idx: nat, total: nat, body: Bytes): Result
    requires idx < total
  {
    var p: Partial := if id in s.partials then s.partials[id] else Partial(EmptySlots(total), 0, total);
    if p.total != total then Result(s.(partials := s.partials - {id}), None)
    else if p.chunks[idx].Some? then Result(s, None)
    else
      var q: Partial := Partial(p.chunks[idx := Some(body)], p.received + 1, total);
      if q.received < total || !AllFilled(q.chunks)
      then Result(s.(partials := s.partials[id := q]), None)
      else Result(s.(partials := s.partials - {id}), Some(Join(q.chunks)))
  }

  function Accept(o: Order, s: State, id: int, idx: nat, total: nat, body: Bytes): Result
    requires idx < total
  {
    if s.latestSeen.Some? && Older(o, id, s.latestSeen.value) then Result(s, None)
    else Fill(Advance(o, s, id), id, idx, total, body)
  }

  /** A buffer the receiver ignores before looking at its state. */
  predicate Malformed(buf: Bytes) {
    var c := Decode(buf);
    c.None? || c.value.total == 0 || c.value.total <= c.value.idx
  }

  /** One call of `onChunk`, on arbitrary bytes. */
  function OnChunk(s: State, buf: Bytes): Result {
    if Malformed(buf) then Result(s, None)
    else
      var c := Decode(buf).value;
      Accept(Serial, s, c.msgId, c.idx, c.total, c.body)
  }

  /** The state after a whole run of arbitrary buffers. */
  function After(s: State, bufs: seq<Bytes>): State
    decreases |bufs|
  {
    if bufs == [] then s else After(OnChunk(s, bufs[0]).state, bufs[1..])
  }

  function Filled(slots: seq<Option<Bytes>>): (n: nat)
    ensures n <= |slots|
  {
    if slots == [] then 0 else (if slots[0].Some? then 1 else 0) + Filled(slots[1..])
  }

  /** Every stored partial is incomplete, counts its filled slots exactly, and is not
      strictly older than the newest message seen. */
  ghost predicate Inv(s: State) {
    && (s.latestSeen.None? ==> s.partials == map[])
    && forall k <- s.partials ::
         var p := s.partials[k];
         && 0 < p.received < p.total
         && p.received == Filled(p.chunks)
         && !SerialOlder(k, s.latestSeen.value)
  }

  lemma {:induction false} FilledUpdate(slots: seq<Option<Bytes>>, i: nat, b: Bytes)
    requires i < |slots| && slots[i].None?
    ensures Filled(slots[i := Some(b)]) == Filled(slots) + 1
  {
    var t := slots[i := Some(b)];
    if i > 0 {
      FilledUpdate(slots[1..], i - 1, b);
      assert t[1..] == slots[1..][i - 1 := Some(b)];
    } else {
      assert t[1..] == slots[1..];
    }
  }

  lemma {:induction false} FilledEmpty(n: nat)
    ensures Filled(EmptySlots(n)) == 0
  {
    if n > 0 {
      assert EmptySlots(n)[1..] == EmptySlots(n - 1);
      FilledEmpty(n - 1);
    }
  }

  lemma {:induction false} FilledAll(slots: seq<Option<Bytes>>)
    ensures Filled(slots) == |slots| <==> AllFilled(slots)
  {
    if slots != [] {
      FilledAll(slots[1..]);
      assert AllFilled(slots) <==> slots[0].Some? && AllFilled(slots[1..]) by {
        assert slots == [slots[0]] + slots[1..];
      }
    }
  }

  /** The slot a chunk is stored in, when it is neither malformed, stale, conflicting nor
      a duplicate. */
  ghost predicate Stores(s: State, buf: Bytes) {
    && !Malformed(buf)
    && var c := Decode(buf).value;
    && !(s.latestSeen.Some? && SerialOlder(c.msgId, s.latestSeen.value))
    && var a := Advance(Serial, s, c.msgId);
    && (c.msgId in a.partials ==> a.partials[c.msgId].total == c.total && a.partials[c.msgId].chunks[c.idx].None?)
  }

  ghost function SlotsAfter(s: State, buf: Bytes): seq<Option<Bytes>>
    requires Stores(s, buf)
  {
    var c := Decode(buf).value;
    var a := Advance(Serial, s, c.msgId);
    (if c.msgId in a.partials then a.partials[c.msgId].chunks else EmptySlots(c.total))[c.idx := Some(c.body)]
  }

  ghost function ReceivedAfter(s: State, buf: Bytes): int
    requires Stores(s, buf)
  {
    var c := Decode(buf).value;
    var a := Advance(Serial, s, c.msgId);
    1 + if c.msgId in a.partials then a.partials[c.msgId].received else 0
  }

  /** Once the count reaches the total no slot is empty: the exit for a missing chunk
      after the count test is dead. */
  lemma MissingChunkExitUnreachable(s: State, buf: Bytes)
    requires Inv(s) && Stores(s, buf)
    ensures ReceivedAfter(s, buf) == Filled(SlotsAfter(s, buf)) <= Decode(buf).value.total
    ensures ReceivedAfter(s, buf) == Decode(buf).value.total <==> AllFilled(SlotsAfter(s, buf))
  {
    var c := Decode(buf).value;
    var a := Advance(Serial, s, c.msgId);
    FilledEmpty(c.total);
    FilledUpdate(if c.msgId in a.partials then a.partials[c.msgId].chunks else EmptySlots(c.total), c.idx, c.body);
    FilledAll(SlotsAfter(s, buf));
  }

  /** A chunk whose total contradicts that of the partial it belongs to drops the whole message, and
      no other that a new chunk would not evict. */
  lemma ConflictDrops(s: State, buf: Bytes)
    requires Inv(s) && !Malformed(buf)
    requires var c := Decode(buf).value;
             && c.msgId in s.partials && s.partials[c.msgId].total != c.total
             && !(s.latestSeen.Some? && SerialOlder(c.msgId, s.latestSeen.value))
    ensures var id, r := Decode(buf).value.msgId, OnChunk(s, buf);
            && r.out == None
            && r.state.latestSeen == Advance(Serial, s, id).latestSeen
            && r.state.partials == Advance(Serial, s, id).partials - {id}
  {
  }

  /** A buffer is ignored before anything else exactly when it has no whole header, or its total is 0
      or not above its index. */
  lemma MalformedExactly(buf: Bytes)
    ensures Malformed(buf) <==>
            |buf| < 8 ||
            var idx, total := buf[4] as int + 256 * buf[5] as int, buf[6] as int + 256 * buf[7] as int;
            total == 0 || idx >= total
    ensures Malformed(buf) ==> forall s :: OnChunk(s, buf) == Result(s, None)
  {
  }

  /** One chunk keeps the invariant, whatever its bytes. */
  lemma InvStep(s: State, buf: Bytes)
    requires Inv(s)
    ensures Inv(OnChunk(s, buf).state)
  {
    if Stores(s, buf) {
      MissingChunkExitUnreachable(s, buf);
    }
  }

  /** The invariant holds after every run of arbitrary buffers on a new reassembler. */
  lemma InvAlways(bufs: seq<Bytes>)
    ensures Inv(After(Fresh, bufs))
  {
    InvFrom(Fresh, bufs);
  }

  lemma {:induction false} InvFrom(s: State, bufs: seq<Bytes>)
    requires Inv(s)
    ensures Inv(After(s, bufs))
    decreases |bufs|
  {
    if bufs != [] {
      InvStep(s, bufs[0]);
      InvFrom(OnChunk(s, bufs[0]).state, bufs[1..]);
    }
  }

  /** At most one partial, keyed by the newest message seen. */
  ghost predicate Single(s: State) {
    forall k <- s.partials :: s.latestSeen == Some(k)
  }

  /** A chunk whose id is exactly half the id space from the newest one seen: neither
      strictly older nor strictly newer. */
  predicate Antipodal(s: State, buf: Bytes) {
    && !Malformed(buf)
    && s.latestSeen.Some?
    && (Decode(buf).value.msgId - s.latestSeen.value) % U32_SPAN == HALF
  }

  ghost predicate IdsInRange(s: State) {
    && (s.latestSeen.Some? ==> 0 <= s.latestSeen.value < U32_SPAN)
    && forall k <- s.partials :: 0 <= k < U32_SPAN
  }

  /** An antipodal chunk of a message of several chunks. */
  predicate Crowds(s: State, buf: Bytes) {
    Antipodal(s, buf) && Decode(buf).value.total > 1
  }

  lemma StepKeepsRange(s: State, buf: Bytes)
    requires Inv(s) && IdsInRange(s)
    ensures IdsInRange(OnChunk(s, buf).state)
  {
  }

  lemma AntipodalStep(s: State, buf: Bytes)
    requires Inv(s) && Single(s) && IdsInRange(s) && Antipodal(s, buf)
    ensures Single(OnChunk(s, buf).state) <==> Decode(buf).value.total == 1
  {
    var c := Decode(buf).value;
    assert c.msgId !in s.partials;
    assert Advance(Serial, s, c.msgId) == s;
    MissingChunkExitUnreachable(s, buf);
    FilledAll(SlotsAfter(s, buf));
    if c.total > 1 {
      assert c.msgId in OnChunk(s, buf).state.partials;
    }
  }

  lemma OrderedStep(s: State, buf: Bytes)
    requires Inv(s) && Single(s) && IdsInRange(s) && !Antipodal(s, buf)
    ensures Single(OnChunk(s, buf).state)
  {
  }

  /** A step leaves at most one partial exactly when its chunk does not crowd. */
  lemma SingleExact(s: State, buf: Bytes)
    requires Inv(s) && Single(s) && IdsInRange(s)
    ensures IdsInRange(OnChunk(s, buf).state)
    ensures Single(OnChunk(s, buf).state) <==> !Crowds(s, buf)
  {
    StepKeepsRange(s, buf);
    if Antipodal(s, buf) {
      AntipodalStep(s, buf);
    } else {
      OrderedStep(s, buf);
    }
  }

  ghost predicate NeverCrowds(s: State, bufs: seq<Bytes>)
    decreases |bufs|
  {
    bufs == [] || (!Crowds(s, bufs[0]) && NeverCrowds(OnChunk(s, bufs[0]).state, bufs[1..]))
  }

  /** At most one partial at every point of the run. */
  ghost predicate SingleThroughout(s: State, bufs: seq<Bytes>) {
    forall i :: 0 <= i <= |bufs| ==> Single(After(s, bufs[..i]))
  }

  lemma ThroughoutTail(s: State, bufs: seq<Bytes>)
    requires bufs != [] && Single(s)
    ensures SingleThroughout(s, bufs) <==> SingleThroughout(OnChunk(s, bufs[0]).state, bufs[1..])
  {
    var next, rest := OnChunk(s, bufs[0]).state, bufs[1..];
    forall i | 0 <= i <= |rest|
      ensures After(s, bufs[..i + 1]) == After(next, rest[..i])
    {
      assert bufs[..i + 1][1..] == rest[..i];
    }
    if SingleThroughout(next, rest) {
      forall i | 0 <= i <= |bufs|
        ensures Single(After(s, bufs[..i]))
      {
        if i > 0 {
          assert Single(After(next, rest[..i - 1]));
        }
      }
    }
  }

  /** Over every run: at most one partial exists at every point, keyed by the newest message
      seen, if and only if no chunk of a message of several chunks arrives exactly half the id
      space away. */
  lemma {:induction false} SingleAlways(s: State, bufs: seq<Bytes>)
    requires Inv(s) && Single(s) && IdsInRange(s)
    ensures SingleThroughout(s, bufs) <==> NeverCrowds(s, bufs)
    decreases |bufs|
  {
    if bufs != [] {
      var next := OnChunk(s, bufs[0]).state;
      InvStep(s, bufs[0]);
      SingleExact(s, bufs[0]);
      ThroughoutTail(s, bufs);
      if Crowds(s, bufs[0]) {
        assert After(next, bufs[1..][..0]) == next;
      } else {
        SingleAlways(next, bufs[1..]);
      }
    }
  }

  /** Such chunks exist: two of them half the id space apart leave two partials. */
  lemma TwoPartials()
    ensures |After(Fresh, [Encode(Chunk(0, 0, 2, [])), Encode(Chunk(HALF, 0, 2, []))]).partials| == 2
  {
    var a, b := Chunk(0, 0, 2, []), Chunk(HALF, 0, 2, []);
    DecodeEncode(a);
    DecodeEncode(b);
    var bufs: seq<Bytes> := [Encode(a), Encode(b)];
    var s1 := OnChunk(Fresh, bufs[0]).state;
    var s2 := OnChunk(s1, bufs[1]).state;
    assert s1.partials.Keys == {0};
    assert s2.partials.Keys == {0, HALF};
    assert After(s1, bufs[1..]) == s2 by {
      assert bufs[1..][1..] == [];
    }
  }

  /** A finished message leaves no trace: the same single-chunk message delivered twice is
      surfaced twice, so delivery at most once needs a network that does not duplicate. */
  lemma NoTombstone(id: U32, body: Bytes)
    ensures var buf := Encode(Chunk(id, 0, 1, body));
            var r := OnChunk(Fresh, buf);
            r.out == Some(body) && OnChunk(r.state, buf).out == Some(body)
  {
    DecodeEncode(Chunk(id, 0, 1, body));
    var slots := EmptySlots(1)[0 := Some(body)];
    assert slots == [Some(body)] && slots[1..] == [];
    assert Join(slots) == body;
    assert Advance(Serial, Fresh, id) == State(Some(id), map[]);
    assert OnChunk(Fresh, Encode(Chunk(id, 0, 1, body))).state == State(Some(id), map[]);
  }
}
