/** What the operations of the latest-frame-wins queue do, said over their inputs, and what whole
    runs neither lose nor reorder. */
module QueueRuns {
  import opened Prelude
  import opened Wire
  import opened Chunking
  import opened DriverQueue

  /** Latest frame wins: of a frame and those queued behind it only the last is chunked, under the
      next id, and its chunks replace whatever was pending. Without a media channel nothing
      happens. */
  lemma ReceiveExact(d: Driver, data: Bytes, queued: seq<Bytes>)
    ensures var last := ([data] + queued)[|queued|];
            Apply(d, Receive(data, queued)) ==
            if d.media.None? then d
            else d.(nextMsgId := (d.nextMsgId + 1) % 0x1_0000_0000,
                    pending := ChunksOf(d.nextMsgId, last),
                    frames := d.frames + [last])
  {
  }

  /** "control" opens the control channel and any other label the media channel; nothing else. */
  lemma OpenExact(d: Driver, id: ChannelId, name: string)
    ensures Apply(d, Open(id, name)) ==
            Driver(d.nextMsgId,
                   if name == "control" then d.media else Some(id),
                   if name == "control" then Some(id) else d.control,
                   d.pending, d.frames, d.written)
  {
  }

  /** Closing the media channel forgets it and its queue; closing the control channel forgets that
      one; any other id changes nothing. */
  lemma CloseExact(d: Driver, id: ChannelId)
    ensures var media := d.media == Some(id);
            Apply(d, Close(id)) ==
            Driver(d.nextMsgId,
                   if media then None else d.media,
                   if !media && d.control == Some(id) then None else d.control,
                   if media then [] else d.pending,
                   d.frames, d.written)
  {
  }

  // ---------- draining ----------

  /** A drain consumes the first k results: it goes on while writes are accepted or fail, and stops
      at a full buffer, at a missing channel, or when the queue or the results run out. */
  predicate Stops(pending: seq<Bytes>, results: seq<WriteResult>, k: nat) {
    && k <= |pending| && k <= |results|
    && (forall i :: 0 <= i < k ==> results[i].Accepted? || results[i].Failed?)
    && (k == |pending| || k == |results| || results[k].Full? || results[k].ChannelGone?)
  }

  /** The accepted ones among the first k chunks of the queue, in order, each with its position in
      its frame. */
  function AcceptedOf(d: Driver, results: seq<WriteResult>, k: nat): seq<Packet>
    requires k <= |d.pending| && k <= |results|
  {
    if k == 0 then []
    else
      var at := |LastChunks(d)| - |d.pending| + k - 1;
      AcceptedOf(d, results, k - 1) +
      if results[k - 1].Accepted? then [Packet(|d.frames| - 1, at, d.pending[k - 1])] else []
  }

  function Drained(d: Driver, results: seq<WriteResult>, k: nat): Driver
    requires k <= |d.pending| && k <= |results|
  {
    d.(pending := d.pending[k..], written := d.written + AcceptedOf(d, results, k))
  }

  lemma {:induction false} DrainPrefix(d: Driver, results: seq<WriteResult>, k: nat)
    requires d.media.Some? && k <= |d.pending| && k <= |results|
    requires forall i :: 0 <= i < k ==> results[i].Accepted? || results[i].Failed?
    ensures DrainWith(d, results) == DrainWith(Drained(d, results, k), results[k..])
  {
    if k == 0 {
      assert Drained(d, results, 0) == d && results[0..] == results;
    } else {
      DrainPrefix(d, results, k - 1);
      DrainOne(d, results, k - 1);
    }
  }

  lemma DrainOne(d: Driver, results: seq<WriteResult>, k: nat)
    requires d.media.Some? && k < |d.pending| && k < |results|
    requires results[k].Accepted? || results[k].Failed?
    ensures DrainWith(Drained(d, results, k), results[k..]) ==
            DrainWith(Drained(d, results, k + 1), results[k + 1..])
  {
    var before := Drained(d, results, k);
    assert results[k..][0] == results[k] && results[k..][1..] == results[k + 1..];
    assert LastChunks(before) == LastChunks(d);
    assert Pop(before, results[k].Accepted?) == Drained(d, results, k + 1);
  }

  /** Exactly the first k chunks leave the queue, and exactly the accepted ones among them are
      written, in order; a chunk whose write met a full buffer stays at the front. */
  lemma DrainExact(d: Driver, results: seq<WriteResult>, k: nat)
    requires d.media.Some? && Stops(d.pending, results, k)
    ensures Apply(d, Drain(results)) ==
            d.(pending := d.pending[k..], written := d.written + AcceptedOf(d, results, k))
  {
    DrainPrefix(d, results, k);
  }

  lemma DrainWithoutChannel(d: Driver, results: seq<WriteResult>)
    requires d.media.None?
    ensures Apply(d, Drain(results)) == d
  {
  }

  /** Every drain stops somewhere. */
  lemma {:induction false} DrainPoint(pending: seq<Bytes>, results: seq<WriteResult>, from: nat) returns (k: nat)
    requires from <= |pending| && from <= |results|
    requires forall i :: 0 <= i < from ==> results[i].Accepted? || results[i].Failed?
    ensures Stops(pending, results, k)
    decreases |results| - from
  {
    if from == |pending| || from == |results| || results[from].Full? || results[from].ChannelGone? {
      k := from;
    } else {
      k := DrainPoint(pending, results, from + 1);
    }
  }

  /** All accepted: the queue's first k chunks themselves are what is written. */
  lemma {:induction false} AllAccepted(d: Driver, results: seq<WriteResult>, k: nat)
    requires k <= |d.pending| && k <= |results|
    requires forall i :: 0 <= i < k ==> results[i].Accepted?
    ensures |AcceptedOf(d, results, k)| == k
    ensures forall i :: 0 <= i < k ==>
              AcceptedOf(d, results, k)[i] ==
              Packet(|d.frames| - 1, |LastChunks(d)| - |d.pending| + i, d.pending[i])
  {
    if k > 0 {
      AllAccepted(d, results, k - 1);
    }
  }

  // ---------- what a run keeps ----------

  /** The bytes written of frame n, in order. */
  function BytesOf(written: seq<Packet>, n: int): seq<Bytes> {
    if written == [] then []
    else
      var last := written[|written| - 1];
      BytesOf(written[..|written| - 1], n) + if last.n == n then [last.bytes] else []
  }

  /** What has been written of the last frame, followed by what is pending, is all its chunks. */
  ghost predicate Conserved(d: Driver) {
    BytesOf(d.written, |d.frames| - 1) + d.pending == LastChunks(d)
  }

  /** No write fails and the media channel stays open. */
  predicate Careful(d: Driver, op: Op) {
    match op
    case Drain(results) => forall i :: 0 <= i < |results| ==> !results[i].Failed?
    case Close(id) => d.media != Some(id)
    case _ => true
  }

  predicate CarefulRun(d: Driver, ops: seq<Op>)
    decreases |ops|
  {
    ops == [] || (Careful(d, ops[0]) && CarefulRun(Apply(d, ops[0]), ops[1..]))
  }

  lemma BytesSnoc(written: seq<Packet>, p: Packet, n: int)
    ensures BytesOf(written + [p], n) == BytesOf(written, n) + if p.n == n then [p.bytes] else []
  {
    assert (written + [p])[..|written|] == written;
  }

  lemma {:induction false} NothingOf(written: seq<Packet>, n: int)
    requires forall p <- written :: p.n != n
    ensures BytesOf(written, n) == []
  {
    if written != [] {
      NothingOf(written[..|written| - 1], n);
    }
  }

  lemma PopConserves(d: Driver)
    requires d.pending != [] && Conserved(d)
    ensures Conserved(Pop(d, true))
  {
    BytesSnoc(d.written, Front(d), |d.frames| - 1);
    assert LastChunks(Pop(d, true)) == LastChunks(d);
    assert d.pending == [d.pending[0]] + d.pending[1..];
  }

  lemma {:induction false} DrainConserves(d: Driver, results: seq<WriteResult>)
    requires Conserved(d) && forall i :: 0 <= i < |results| ==> !results[i].Failed?
    ensures Conserved(DrainWith(d, results))
    decreases |results|
  {
    if d.media.Some? && d.pending != [] && results != [] && results[0].Accepted? {
      PopConserves(d);
      DrainConserves(Pop(d, true), results[1..]);
    }
  }

  lemma NothingOfNext(d: Driver)
    requires WrittenInv(d)
    ensures BytesOf(d.written, |d.frames|) == []
  {
    forall p <- d.written
      ensures p.n != |d.frames|
    {
      var i :| 0 <= i < |d.written| && d.written[i] == p;
      assert Genuine(d.frames, d.written[i]);
    }
    NothingOf(d.written, |d.frames|);
  }

  lemma NewFrameConserves(d: Driver, next: Driver, last: Bytes)
    requires BytesOf(d.written, |d.frames|) == [] && next.written == d.written
    requires next.frames == d.frames + [last] && next.pending == ChunksOf(|d.frames| % U32_SPAN, last)
    ensures Conserved(next)
  {
    assert next.frames[|next.frames| - 1] == last;
    assert LastChunks(next) == next.pending;
  }

  lemma ReceiveConserves(d: Driver, data: Bytes, queued: seq<Bytes>)
    requires Inv(d) && d.media.Some?
    ensures Conserved(Apply(d, Receive(data, queued)))
  {
    ReceiveExact(d, data, queued);
    NothingOfNext(d);
    NewFrameConserves(d, Apply(d, Receive(data, queued)), ([data] + queued)[|queued|]);
  }

  lemma CarefulStep(d: Driver, op: Op)
    requires Inv(d) && Conserved(d) && Careful(d, op)
    ensures Conserved(Apply(d, op))
  {
    match op
    case Drain(results) => DrainConserves(d, results);
    case Receive(data, queued) =>
      if d.media.Some? {
        ReceiveConserves(d, data, queued);
      }
    case Open(id, name) =>
      OpenExact(d, id, name);
      assert LastChunks(Apply(d, op)) == LastChunks(d);
    case Close(id) =>
      CloseExact(d, id);
      assert LastChunks(Apply(d, op)) == LastChunks(d);
  }

  lemma {:induction false} CarefulRunConserves(d: Driver, ops: seq<Op>)
    requires Inv(d) && Conserved(d) && CarefulRun(d, ops)
    ensures Conserved(Run(d, ops))
    decreases |ops|
  {
    if ops != [] {
      CarefulStep(d, ops[0]);
      InvStep(d, ops[0]);
      CarefulRunConserves(Apply(d, ops[0]), ops[1..]);
    }
  }

  /** Over every run in which no write fails and the media channel is not closed, backpressure loses
      nothing and reorders nothing: the chunks of the last frame are those written of it followed by
      those pending. */
  lemma NothingLost(ops: seq<Op>)
    requires CarefulRun(Idle, ops)
    ensures Conserved(Run(Idle, ops))
  {
    IdleInv();
    CarefulRunConserves(Idle, ops);
  }
}
