/** The backend chunker: splits each frame into numbered wire chunks. */
module Chunking {
  import opened Prelude
  import opened Wire

  const CHUNK_TOTAL_BYTES := 16 * 1024
  const CHUNK_PAYLOAD_BYTES := CHUNK_TOTAL_BYTES - HEADER_BYTES
  const U16_MAX := U16_SPAN - 1

  /** The largest payload whose chunk count still fits the u16 header field. */
  const MAX_PAYLOAD := U16_MAX * CHUNK_PAYLOAD_BYTES

  /** Consecutive slices of at most CHUNK_PAYLOAD_BYTES; one empty slice for an empty payload. */
  function Slices(p: Bytes): (r: seq<Bytes>)
    ensures |r| > 0
  {
    if |p| <= CHUNK_PAYLOAD_BYTES then [p]
    else [p[..CHUNK_PAYLOAD_BYTES]] + Slices(p[CHUNK_PAYLOAD_BYTES..])
  }

  function Concat(parts: seq<Bytes>): Bytes {
    if parts == [] then [] else parts[0] + Concat(parts[1..])
  }

  /** The chunk count written in the header, which saturates at 65535. */
  function WireTotal(p: Bytes): (n: U16)
    ensures 0 < n
  {
    if |Slices(p)| < U16_MAX then |Slices(p)| else U16_MAX
  }

  /** Chunk i of a payload. The index field is the loop index truncated to 16 bits. */
  function ChunkAt(msgId: U32, p: Bytes, i: nat): Chunk
    requires i < |Slices(p)|
  {
    Chunk(msgId, i % U16_SPAN, WireTotal(p), Slices(p)[i])
  }

  function ChunksOf(msgId: U32, p: Bytes): (r: seq<Bytes>)
    ensures |r| == |Slices(p)|
    ensures forall i :: 0 <= i < |r| ==> r[i] == Encode(ChunkAt(msgId, p, i))
  {
    seq(|Slices(p)|, i requires 0 <= i < |Slices(p)| => Encode(ChunkAt(msgId, p, i)))
  }

  /** Slice i is the window of bytes [i * P, (i + 1) * P), cut at the end of the payload. */
  lemma {:induction false} SliceAt(p: Bytes, i: nat)
    requires i < |Slices(p)|
    ensures i * CHUNK_PAYLOAD_BYTES <= |p|
    ensures Slices(p)[i] ==
            if (i + 1) * CHUNK_PAYLOAD_BYTES <= |p|
            then p[i * CHUNK_PAYLOAD_BYTES..(i + 1) * CHUNK_PAYLOAD_BYTES]
            else p[i * CHUNK_PAYLOAD_BYTES..]
    decreases i
  {
    if |p| > CHUNK_PAYLOAD_BYTES && i > 0 {
      SliceAt(p[CHUNK_PAYLOAD_BYTES..], i - 1);
    }
  }

  /** The slice count is the rounded-up quotient, and one for an empty payload. */
  lemma {:induction false} SliceCount(p: Bytes)
    ensures |Slices(p)| == if p == [] then 1 else (|p| + CHUNK_PAYLOAD_BYTES - 1) / CHUNK_PAYLOAD_BYTES
    decreases |p|
  {
    if |p| > CHUNK_PAYLOAD_BYTES {
      SliceCount(p[CHUNK_PAYLOAD_BYTES..]);
    }
  }

  /** Slice i of a non-empty payload starts inside it, and only the last one reaches the end. */
  lemma {:induction false} LastSlice(p: Bytes, i: nat)
    requires p != [] && i < |Slices(p)|
    ensures i * CHUNK_PAYLOAD_BYTES < |p|
    ensures i + 1 == |Slices(p)| <==> |p| <= (i + 1) * CHUNK_PAYLOAD_BYTES
    decreases i
  {
    if |p| > CHUNK_PAYLOAD_BYTES && i > 0 {
      LastSlice(p[CHUNK_PAYLOAD_BYTES..], i - 1);
    }
  }

  /** The window the loop takes next, and where it leaves the offset. */
  lemma NextWindow(p: Bytes, i: nat)
    requires p != [] && i < |Slices(p)|
    ensures var offset := i * CHUNK_PAYLOAD_BYTES;
            var end := if offset + CHUNK_PAYLOAD_BYTES <= |p| then offset + CHUNK_PAYLOAD_BYTES else |p|;
            && offset < |p|
            && Slices(p)[i] == p[offset..end]
            && end == if i + 1 == |Slices(p)| then |p| else (i + 1) * CHUNK_PAYLOAD_BYTES
  {
    SliceAt(p, i);
    LastSlice(p, i);
  }

  /** Splitting loses nothing: the slices concatenate back to the payload. */
  lemma {:induction false} ConcatSlices(p: Bytes)
    ensures Concat(Slices(p)) == p
    decreases |p|
  {
    if |p| > CHUNK_PAYLOAD_BYTES {
      ConcatSlices(p[CHUNK_PAYLOAD_BYTES..]);
      assert Slices(p)[1..] == Slices(p[CHUNK_PAYLOAD_BYTES..]);
    } else {
      assert Slices(p) == [p] && Concat([p]) == p + Concat([]);
    }
  }

  /** The header total is the true chunk count exactly up to MAX_PAYLOAD bytes. */
  lemma WireTotalExact(p: Bytes)
    ensures WireTotal(p) == |Slices(p)| <==> |p| <= MAX_PAYLOAD
  {
    SliceCount(p);
  }

  lemma IndexFits(p: Bytes, i: nat)
    requires |p| <= MAX_PAYLOAD && i < |Slices(p)|
    ensures i < U16_MAX && WireTotal(p) == |Slices(p)|
  {
    WireTotalExact(p);
  }

  /** Up to MAX_PAYLOAD bytes no header field is cut. */
  lemma ChunkAtFits(msgId: U32, p: Bytes, i: nat)
    requires |p| <= MAX_PAYLOAD && i < |Slices(p)|
    ensures i < U16_MAX && WireTotal(p) == |Slices(p)|
    ensures ChunkAt(msgId, p, i) == Chunk(msgId, i, WireTotal(p), Slices(p)[i])
  {
    IndexFits(p, i);
    assert i % U16_SPAN == i;
  }

  lemma {:induction false} SliceLength(p: Bytes, i: nat)
    requires i < |Slices(p)|
    ensures |Slices(p)[i]| <= CHUNK_PAYLOAD_BYTES
    decreases i
  {
    if |p| > CHUNK_PAYLOAD_BYTES && i > 0 {
      SliceLength(p[CHUNK_PAYLOAD_BYTES..], i - 1);
    }
  }

  /** Only the last slice may be short. */
  lemma {:induction false} SliceFull(p: Bytes, i: nat)
    requires i + 1 < |Slices(p)|
    ensures |Slices(p)[i]| == CHUNK_PAYLOAD_BYTES
    decreases i
  {
    if i > 0 {
      SliceFull(p[CHUNK_PAYLOAD_BYTES..], i - 1);
    }
  }

  /** The header of any chunk of any payload, fitting or not: the index wraps at 65536 and the total
      stays at 65535. */
  lemma ChunkHeader(msgId: U32, p: Bytes, i: nat)
    requires i < |Slices(p)|
    ensures var n := |Slices(p)|;
            Decode(ChunksOf(msgId, p)[i]) ==
            Some(Chunk(msgId, i % 65536, if n <= 65535 then n else 65535, Slices(p)[i]))
  {
    DecodeEncode(ChunkAt(msgId, p, i));
  }

  lemma ChunkDecodes(msgId: U32, p: Bytes, i: nat)
    requires |p| <= MAX_PAYLOAD && i < |Slices(p)|
    ensures i < U16_MAX
    ensures |Slices(p)[i]| <= CHUNK_PAYLOAD_BYTES
    ensures Decode(ChunksOf(msgId, p)[i]) == Some(Chunk(msgId, i, WireTotal(p), Slices(p)[i]))
  {
    ChunkAtFits(msgId, p, i);
    SliceLength(p, i);
    DecodeEncode(ChunkAt(msgId, p, i));
  }

  /** The chunk round trip with its exact size bound: a receiver that decodes the
      emitted chunks reads the indices 0..total-1 in order, the sender's id and total
      in every header, and bodies that concatenate to the payload. */
  lemma ChunkRoundTrip(msgId: U32, p: Bytes)
    requires |p| <= MAX_PAYLOAD
    ensures var w := ChunksOf(msgId, p);
            && |w| == WireTotal(p)
            && (forall i :: 0 <= i < |w| ==>
                  && HEADER_BYTES <= |w[i]| <= 16384
                  && (i + 1 < |w| ==> |w[i]| == 16384)
                  && Decode(w[i]) == Some(Chunk(msgId, i, |w|, Slices(p)[i])))
            && Concat(Slices(p)) == p
  {
    var w := ChunksOf(msgId, p);
    WireTotalExact(p);
    forall i | 0 <= i < |w|
      ensures HEADER_BYTES <= |w[i]| <= 16384 && (i + 1 < |w| ==> |w[i]| == 16384)
      ensures Decode(w[i]) == Some(Chunk(msgId, i, |w|, Slices(p)[i]))
    {
      ChunkDecodes(msgId, p, i);
      if i + 1 < |w| {
        SliceFull(p, i);
      }
    }
    ConcatSlices(p);
  }

  class Chunker {
    var nextMsgId: U32

    constructor ()
      ensures nextMsgId == 0
    {
      nextMsgId := 0;
    }

    static method MakeChunk(msgId: U32, idx: U16, total: U16, slice: Bytes) returns (buf: Bytes)
      ensures buf == Encode(Chunk(msgId, idx, total, slice))
    {
      buf := Le32(msgId);
      buf := buf + Le16(idx);
      buf := buf + Le16(total);
      buf := buf + slice;
    }

    /** `div_ceil`, capped at `u16::MAX`, with the empty payload special-cased. */
    static method CountChunks(payload: Bytes) returns (total: U16)
      ensures total == WireTotal(payload)
    {
      SliceCount(payload);
      if payload == [] {
        return 1;
      }
      var count := (|payload| + CHUNK_PAYLOAD_BYTES - 1) / CHUNK_PAYLOAD_BYTES;
      total := if count < U16_MAX then count else U16_MAX;
    }

    /** The loop over `payload.chunks(..)` with its index truncated to 16 bits. */
    static method EmitChunks(msgId: U32, total: U16, payload: Bytes) returns (out: seq<Bytes>)
      requires payload != [] && total == WireTotal(payload)
      ensures out == ChunksOf(msgId, payload)
    {
      out := [];
      ghost var n := |Slices(payload)|;
      var offset := 0;
      while offset < |payload|
        invariant |out| <= n
        invariant offset == if |out| == n then |payload| else |out| * CHUNK_PAYLOAD_BYTES
        invariant out == ChunksOf(msgId, payload)[..|out|]
      {
        NextWindow(payload, |out|);
        var end := if offset + CHUNK_PAYLOAD_BYTES <= |payload| then offset + CHUNK_PAYLOAD_BYTES else |payload|;
        var chunk := MakeChunk(msgId, |out| % U16_SPAN, total, payload[offset..end]);
        assert chunk == ChunksOf(msgId, payload)[|out|];
        out := out + [chunk];
        offset := end;
      }
      if |out| < n {
        LastSlice(payload, |out|);
      }
    }

    method Split(payload: Bytes) returns (out: seq<Bytes>)
      modifies this
      ensures nextMsgId == (old(nextMsgId) + 1) % U32_SPAN
      ensures out == ChunksOf(old(nextMsgId), payload)
    {
      var msgId := nextMsgId;
      nextMsgId := (nextMsgId + 1) % U32_SPAN;
      var total := CountChunks(payload);
      if payload == [] {
        var only := MakeChunk(msgId, 0, total, []);
        return [only];
      }
      out := EmitChunks(msgId, total, payload);
    }
  }
}
