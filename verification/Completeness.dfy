/** Completeness of reassembly: a message all of whose chunks arrive, in any order and mixed
    with any stale traffic, is surfaced at its last chunk and not before. */
module Completeness {
  import opened Prelude
  import opened Wire
  import opened Chunking
  import opened Reassembly
  import opened FrameCollector
  import SerialRefinement

  /** What reaches the receiver: a chunk of the message in question, or some other buffer. */
  datatype Event = Own(idx: nat) | Other(buf: Bytes)

  /** A buffer that is malformed or belongs to a strictly older message. */
  predicate Stale(id: U32, buf: Bytes) {
    Malformed(buf) || SerialOlder(Decode(buf).value.msgId, id)
  }

  ghost predicate Sendable(bodies: seq<Bytes>) {
    0 < |bodies| < U16_SPAN
  }

  function WireEvent(id: U32, bodies: seq<Bytes>, e: Event): Bytes
    requires Sendable(bodies) && (e.Own? ==> e.idx < |bodies|)
  {
    match e
    case Own(i) => Encode(Chunk(id, i, |bodies|, bodies[i]))
    case Other(buf) => buf
  }

  ghost predicate InRange(bodies: seq<Bytes>, events: seq<Event>) {
    forall e <- events :: e.Own? ==> e.idx < |bodies|
  }

  function WireEvents(id: U32, bodies: seq<Bytes>, events: seq<Event>): (bufs: seq<Bytes>)
    requires Sendable(bodies) && InRange(bodies, events)
    ensures |bufs| == |events|
    ensures forall i :: 0 <= i < |bufs| ==> events[i] in events && bufs[i] == WireEvent(id, bodies, events[i])
  {
    seq(|events|, i requires 0 <= i < |events| => assert events[i] in events; WireEvent(id, bodies, events[i]))
  }

  /** Each chunk outside `got` arrives exactly once and none inside does; everything else is
      stale; and the last event is a chunk of the message. */
  ghost predicate Delivery(id: U32, bodies: seq<Bytes>, got: set<nat>, events: seq<Event>) {
    && events != [] && events[|events| - 1].Own?
    && InRange(bodies, events)
    && (forall e <- events :: e.Other? ==> Stale(id, e.buf))
    && (forall j, k :: 0 <= j < k < |events| && events[j].Own? ==> events[j] != events[k])
    && (forall i: nat | i < |bodies| :: i in got <==> Own(i) !in events)
  }

  /** The receiver holds exactly the chunks `got` of the message, which it has not yet seen
      when `got` is empty. */
  ghost predicate Progress(s: State, id: U32, bodies: seq<Bytes>, got: set<nat>) {
    if got == {} then
      && id !in s.partials
      && (s.latestSeen.None? || (0 <= s.latestSeen.value < U32_SPAN && SerialOlder(s.latestSeen.value, id)))
    else s.latestSeen == Some(id) && Holds(s, id, bodies, got)
  }

  lemma StaleStep(s: State, id: U32, bodies: seq<Bytes>, got: set<nat>, buf: Bytes)
    requires Progress(s, id, bodies, got) && Stale(id, buf)
    ensures Progress(OnChunk(s, buf).state, id, bodies, got)
    ensures got != {} ==> OnChunk(s, buf) == Result(s, None)
  {
  }

  lemma SerialAsymmetric(a: U32, b: U32)
    requires SerialOlder(a, b)
    ensures !SerialOlder(b, a)
  {
    assert a < b ==> (b - a) % U32_SPAN == b - a && (a - b) % U32_SPAN == a - b + U32_SPAN;
    assert b < a ==> (a - b) % U32_SPAN == a - b && (b - a) % U32_SPAN == b - a + U32_SPAN;
  }

  /** Before its chunk is stored the message becomes, or stays, the newest one. */
  lemma OwnAdvance(s: State, id: U32, bodies: seq<Bytes>, got: set<nat>)
    requires Progress(s, id, bodies, got)
    ensures var a := Advance(Serial, s, id);
            a.latestSeen == Some(id) && Holds(a, id, bodies, got)
    ensures !(s.latestSeen.Some? && SerialOlder(id, s.latestSeen.value))
  {
    if got == {} && s.latestSeen.Some? {
      SerialAsymmetric(s.latestSeen.value, id);
    }
  }

  /** The receiver reads a chunk of the message as the sender wrote it. */
  lemma ReadsOwn(s: State, id: U32, bodies: seq<Bytes>, i: nat)
    requires Sendable(bodies) && i < |bodies|
    ensures OnChunk(s, WireEvent(id, bodies, Own(i))) == Accept(Serial, s, id, i, |bodies|, bodies[i])
  {
    DecodeEncode(Chunk(id, i, |bodies|, bodies[i]));
  }

  /** Storing one more chunk surfaces the message or makes progress on it. */
  lemma OwnFill(a: State, id: U32, bodies: seq<Bytes>, got: set<nat>, i: nat)
    requires a.latestSeen == Some(id) && Holds(a, id, bodies, got) && got <= Range(|bodies|)
    requires i < |bodies| && i !in got
    ensures var r := Fill(a, id, i, |bodies|, bodies[i]);
            if got + {i} == Range(|bodies|) then r.out == Some(Concat(bodies))
            else r.out == None && Progress(r.state, id, bodies, got + {i})
  {
    FillNew(a, id, bodies, got, i);
  }

  lemma AcceptsOwn(s: State, id: U32, bodies: seq<Bytes>, got: set<nat>, i: nat)
    requires Progress(s, id, bodies, got) && i < |bodies|
    ensures Accept(Serial, s, id, i, |bodies|, bodies[i]) ==
            Fill(Advance(Serial, s, id), id, i, |bodies|, bodies[i])
  {
    OwnAdvance(s, id, bodies, got);
  }

  lemma OwnStep(s: State, id: U32, bodies: seq<Bytes>, got: set<nat>, i: nat)
    requires Sendable(bodies) && Progress(s, id, bodies, got) && got <= Range(|bodies|)
    requires i < |bodies| && i !in got
    ensures var r := OnChunk(s, WireEvent(id, bodies, Own(i)));
            if got + {i} == Range(|bodies|) then r.out == Some(Concat(bodies))
            else r.out == None && Progress(r.state, id, bodies, got + {i})
  {
    ReadsOwn(s, id, bodies, i);
    AcceptsOwn(s, id, bodies, got, i);
    OwnAdvance(s, id, bodies, got);
    OwnFill(Advance(Serial, s, id), id, bodies, got, i);
  }

  lemma DeliveryTail(id: U32, bodies: seq<Bytes>, got: set<nat>, events: seq<Event>)
    requires Delivery(id, bodies, got, events) && |events| > 1
    ensures Delivery(id, bodies, if events[0].Own? then got + {events[0].idx} else got, events[1..])
  {
    var e, rest := events[0], events[1..];
    assert events == [e] + rest;
    assert forall f :: f in events <==> f == e || f in rest;
    assert e.Own? ==> e !in rest;
  }

  /** The message is surfaced, whole, at the last event and at no earlier chunk of its own. */
  ghost predicate SurfacedAtLast(bodies: seq<Bytes>, events: seq<Event>, outs: seq<Option<Bytes>>) {
    && |outs| == |events| > 0
    && outs[|events| - 1] == Some(Concat(bodies))
    && (forall k :: 0 <= k < |events| - 1 && events[k].Own? ==> outs[k] == None)
  }

  /** An own chunk before the last leaves the message incomplete. */
  lemma NotYet(id: U32, bodies: seq<Bytes>, got: set<nat>, events: seq<Event>)
    requires Delivery(id, bodies, got, events) && |events| > 1 && got <= Range(|bodies|)
    requires events[0].Own?
    ensures var idx := events[0].idx;
            idx < |bodies| && idx !in got && got + {idx} <= Range(|bodies|) && got + {idx} != Range(|bodies|)
  {
    var e, last := events[0], events[|events| - 1];
    assert e in events && last in events;
    assert last.idx !in got + {e.idx};
  }

  /** One event before the last. */
  lemma EventStep(s: State, id: U32, bodies: seq<Bytes>, got: set<nat>, events: seq<Event>)
    requires Sendable(bodies) && got <= Range(|bodies|) && |events| > 1
    requires Progress(s, id, bodies, got) && Delivery(id, bodies, got, events)
    ensures var e := events[0];
            var more := if e.Own? then got + {e.idx} else got;
            var r := OnChunk(s, WireEvents(id, bodies, events)[0]);
            && more <= Range(|bodies|)
            && Progress(r.state, id, bodies, more)
            && (e.Own? ==> r.out == None)
  {
    var e := events[0];
    if e.Own? {
      NotYet(id, bodies, got, events);
      OwnStep(s, id, bodies, got, e.idx);
    } else {
      assert e in events;
      StaleStep(s, id, bodies, got, e.buf);
    }
  }

  lemma LastIndex(id: U32, bodies: seq<Bytes>, got: set<nat>, events: seq<Event>)
    requires Delivery(id, bodies, got, events) && |events| == 1 && got <= Range(|bodies|)
    ensures events[0].Own? && events[0].idx < |bodies| && events[0].idx !in got
    ensures got + {events[0].idx} == Range(|bodies|)
  {
    var e := events[0];
    assert events == [e] && e in events;
    assert forall i: nat | i < |bodies| :: i in got || i == e.idx;
  }

  lemma LastEvent(s: State, id: U32, bodies: seq<Bytes>, got: set<nat>, events: seq<Event>)
    requires Sendable(bodies) && got <= Range(|bodies|) && |events| == 1
    requires Progress(s, id, bodies, got) && Delivery(id, bodies, got, events)
    ensures OnChunk(s, WireEvents(id, bodies, events)[0]).out == Some(Concat(bodies))
  {
    LastIndex(id, bodies, got, events);
    OwnStep(s, id, bodies, got, events[0].idx);
  }

  /** Completeness. From any state that does not hold the message and has seen nothing at
      least as new, if every chunk arrives exactly once and everything else is stale, the
      message is surfaced, whole, exactly at its last chunk and never earlier. */
  lemma {:induction false} Completes(s: State, id: U32, bodies: seq<Bytes>, got: set<nat>, events: seq<Event>)
    requires Sendable(bodies) && got <= Range(|bodies|)
    requires Progress(s, id, bodies, got) && Delivery(id, bodies, got, events)
    ensures SurfacedAtLast(bodies, events, SerialRefinement.Outputs(s, WireEvents(id, bodies, events)))
    decreases |events|
  {
    if |events| == 1 {
      LastEvent(s, id, bodies, got, events);
      OutputsCons(s, id, bodies, events);
    } else {
      EventStep(s, id, bodies, got, events);
      DeliveryTail(id, bodies, got, events);
      OutputsCons(s, id, bodies, events);
      var e := events[0];
      var r := OnChunk(s, WireEvents(id, bodies, events)[0]);
      Completes(r.state, id, bodies, if e.Own? then got + {e.idx} else got, events[1..]);
      SurfacedLater(bodies, events, r.out, SerialRefinement.Outputs(r.state, WireEvents(id, bodies, events[1..])));
    }
  }

  lemma OutputsCons(s: State, id: U32, bodies: seq<Bytes>, events: seq<Event>)
    requires Sendable(bodies) && InRange(bodies, events) && events != []
    ensures var bufs := WireEvents(id, bodies, events);
            var r := OnChunk(s, bufs[0]);
            && InRange(bodies, events[1..])
            && SerialRefinement.Outputs(s, bufs) ==
               [r.out] + SerialRefinement.Outputs(r.state, WireEvents(id, bodies, events[1..]))
  {
    assert WireEvents(id, bodies, events)[1..] == WireEvents(id, bodies, events[1..]);
  }

  lemma SurfacedLater(bodies: seq<Bytes>, events: seq<Event>, out: Option<Bytes>, later: seq<Option<Bytes>>)
    requires |events| > 1 && SurfacedAtLast(bodies, events[1..], later) && (events[0].Own? ==> out == None)
    ensures SurfacedAtLast(bodies, events, [out] + later)
  {
    var rest, outs := events[1..], [out] + later;
    forall k | 0 <= k < |events| - 1 && events[k].Own?
      ensures outs[k] == None
    {
      if k > 0 {
        assert events[k] == rest[k - 1];
      }
    }
  }

  // ---------- the exact payload bound, seen by the receiver ----------

  function InOrder(n: nat): (events: seq<Event>)
    ensures |events| == n && forall i :: 0 <= i < n ==> events[i] == Own(i)
  {
    seq(n, i requires 0 <= i < n => Own(i))
  }

  lemma InOrderDelivers(id: U32, bodies: seq<Bytes>)
    requires Sendable(bodies)
    ensures Delivery(id, bodies, {}, InOrder(|bodies|))
  {
    forall i: nat | i < |bodies|
      ensures Own(i) in InOrder(|bodies|)
    {
      assert InOrder(|bodies|)[i] == Own(i);
    }
  }

  lemma InOrderSurfaces(id: U32, bodies: seq<Bytes>)
    requires Sendable(bodies)
    ensures var events := InOrder(|bodies|);
            SurfacedAtLast(bodies, events, SerialRefinement.Outputs(Fresh, WireEvents(id, bodies, events)))
  {
    InOrderDelivers(id, bodies);
    Completes(Fresh, id, bodies, {}, InOrder(|bodies|));
  }

  lemma {:induction false} ConcatPrefix(p: Bytes, k: nat)
    requires k <= |Slices(p)|
    ensures Concat(Slices(p)[..k]) ==
            if k * CHUNK_PAYLOAD_BYTES <= |p| then p[..k * CHUNK_PAYLOAD_BYTES] else p
    decreases k
  {
    if k > 0 {
      if |p| <= CHUNK_PAYLOAD_BYTES {
        assert Slices(p)[..k] == [p];
        assert Concat([p]) == p + Concat([]);
      } else {
        ConcatPrefixStep(p, k);
        ConcatPrefix(p[CHUNK_PAYLOAD_BYTES..], k - 1);
      }
    }
  }

  lemma ConcatPrefixStep(p: Bytes, k: nat)
    requires 0 < k <= |Slices(p)| && CHUNK_PAYLOAD_BYTES < |p|
    ensures k - 1 <= |Slices(p[CHUNK_PAYLOAD_BYTES..])|
    ensures Concat(Slices(p)[..k]) ==
            p[..CHUNK_PAYLOAD_BYTES] + Concat(Slices(p[CHUNK_PAYLOAD_BYTES..])[..k - 1])
  {
    var prefix, head, tail := Slices(p)[..k], p[..CHUNK_PAYLOAD_BYTES], Slices(p[CHUNK_PAYLOAD_BYTES..]);
    assert Slices(p) == [head] + tail;
    assert prefix[0] == head && prefix[1..] == tail[..k - 1];
  }

  /** The slices a header can count hold the first MAX_PAYLOAD bytes. */
  lemma CountedSlices(p: Bytes)
    ensures Concat(Slices(p)[..WireTotal(p)]) == if |p| <= MAX_PAYLOAD then p else p[..MAX_PAYLOAD]
  {
    WireTotalExact(p);
    ConcatPrefix(p, WireTotal(p));
    if |p| <= MAX_PAYLOAD {
      ConcatSlices(p);
      assert Slices(p)[..WireTotal(p)] == Slices(p);
    }
  }

  lemma WireIsChunks(id: U32, p: Bytes)
    ensures var bodies := Slices(p)[..WireTotal(p)];
            WireEvents(id, bodies, InOrder(|bodies|)) == ChunksOf(id, p)[..WireTotal(p)]
  {
    var bodies := Slices(p)[..WireTotal(p)];
    var w := WireEvents(id, bodies, InOrder(|bodies|));
    forall i | 0 <= i < |bodies|
      ensures w[i] == ChunksOf(id, p)[i]
    {
      assert ChunkAt(id, p, i) == Chunk(id, i, |bodies|, bodies[i]);
    }
  }

  /** The first MAX_PAYLOAD bytes. */
  function Truncated(p: Bytes): Bytes {
    if |p| <= MAX_PAYLOAD then p else p[..MAX_PAYLOAD]
  }

  lemma TruncatedIsWhole(p: Bytes)
    ensures Truncated(p) == p <==> |p| <= MAX_PAYLOAD
  {
  }

  /** The messages among a receiver's outputs. */
  function Messages(outs: seq<Option<Bytes>>): seq<Bytes> {
    if outs == [] then [] else (if outs[0].Some? then [outs[0].value] else []) + Messages(outs[1..])
  }

  lemma {:induction false} OutputsPrefix(s: State, bufs: seq<Bytes>, k: nat)
    requires k <= |bufs|
    ensures |SerialRefinement.Outputs(s, bufs)| == |bufs|
    ensures SerialRefinement.Outputs(s, bufs)[..k] == SerialRefinement.Outputs(s, bufs[..k])
    decreases |bufs|
  {
    if bufs != [] {
      OutputsPrefix(OnChunk(s, bufs[0]).state, bufs[1..], if k > 0 then k - 1 else 0);
      if k > 0 {
        assert bufs[..k][1..] == bufs[1..][..k - 1];
      }
    }
  }

  /** Outputs that are silent before position k and surface m there. */
  lemma {:induction false} FirstMessage(outs: seq<Option<Bytes>>, k: nat, m: Bytes)
    requires k < |outs| && outs[k] == Some(m)
    requires forall i :: 0 <= i < k ==> outs[i] == None
    ensures Messages(outs) == [m] + Messages(outs[k + 1..])
    decreases k
  {
    if k > 0 {
      FirstMessage(outs[1..], k - 1, m);
      assert outs[1..][k..] == outs[k + 1..];
    }
  }

  lemma FirstTotal(id: U32, p: Bytes)
    ensures var outs, n := SerialRefinement.Outputs(Fresh, ChunksOf(id, p)), WireTotal(p);
            && n <= |outs| == |Slices(p)|
            && outs[n - 1] == Some(Truncated(p))
            && forall i :: 0 <= i < n - 1 ==> outs[i] == None
  {
    var n := WireTotal(p);
    var bodies := Slices(p)[..n];
    InOrderSurfaces(id, bodies);
    WireIsChunks(id, p);
    CountedSlices(p);
    OutputsPrefix(Fresh, ChunksOf(id, p), n);
    var outs := SerialRefinement.Outputs(Fresh, ChunksOf(id, p));
    var first := SerialRefinement.Outputs(Fresh, ChunksOf(id, p)[..n]);
    assert forall i :: 0 <= i < n ==> outs[i] == first[i];
    forall i | 0 <= i < n - 1
      ensures first[i] == None
    {
      assert InOrder(n)[i].Own?;
    }
  }

  /** A new receiver fed all of a frame's chunks in order surfaces first, at the chunk numbered
      total - 1, the first MAX_PAYLOAD bytes of the frame; it surfaces the frame and nothing else
      exactly when the frame fits. Beyond that size the header's chunk count saturates, a
      truncated frame is surfaced, and indices past 65535 wrap into another message. */
  lemma SurfacesWholeFrameIffFits(id: U32, p: Bytes)
    ensures var outs := SerialRefinement.Outputs(Fresh, ChunksOf(id, p));
            && WireTotal(p) <= |outs| && outs[WireTotal(p) - 1] == Some(Truncated(p))
            && Messages(outs) != [] && Messages(outs)[0] == Truncated(p)
            && (Messages(outs) == [p] <==> |p| <= MAX_PAYLOAD)
  {
    var outs, n := SerialRefinement.Outputs(Fresh, ChunksOf(id, p)), WireTotal(p);
    FirstTotal(id, p);
    FirstMessage(outs, n - 1, Truncated(p));
    TruncatedIsWhole(p);
    if |p| <= MAX_PAYLOAD {
      WireTotalExact(p);
      assert outs[n..] == [];
    }
  }
}
