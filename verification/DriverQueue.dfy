/** The backend's latest-frame-wins queue in front of the media DataChannel. */
module DriverQueue {
  import opened Prelude
  import opened Wire
  import opened Chunking

  type ChannelId = nat

  /** The answer of one channel write: accepted, refused because the send buffer is full,
      an error, or no such channel any more. */
  datatype WriteResult = Accepted | Full | Failed | ChannelGone

  /** A written chunk with its frame's position among all frames chunked and its own
      position among that frame's chunks. */
  datatype Packet = Packet(n: int, idx: int, bytes: Bytes)

  /** The driver's variables, plus two histories: `frames`, every frame chunked so far, and
      `written`, every chunk the channel accepted so far. */
  datatype Driver = Driver(
    nextMsgId: U32,
    media: Option<ChannelId>,
    control: Option<ChannelId>,
    pending: seq<Bytes>,
    frames: seq<Bytes>,
    written: seq<Packet>)

  const Idle := Driver(0, None, None, [], [], [])

  /** What can happen to the queue: a channel opens or closes, a frame is received together
      with the frames already waiting behind it, or the queue is drained against the
      channel's write results (running out of results counts as a full buffer). */
  datatype Op =
    | Open(id: ChannelId, name: string)
    | Close(id: ChannelId)
    | Receive(data: Bytes, queued: seq<Bytes>)
    | Drain(results: seq<WriteResult>)

  function Latest(data: Bytes, queued: seq<Bytes>): Bytes {
    if queued == [] then data else queued[|queued| - 1]
  }

  /** The chunks of the last frame chunked. */
  function LastChunks(d: Driver): seq<Bytes> {
    if d.frames == [] then []
    else ChunksOf((|d.frames| - 1) % U32_SPAN, d.frames[|d.frames| - 1])
  }

  function Front(d: Driver): Packet
    requires d.pending != []
  {
    Packet(|d.frames| - 1, |LastChunks(d)| - |d.pending|, d.pending[0])
  }

  function Pop(d: Driver, wrote: bool): Driver
    requires d.pending != []
  {
    d.(pending := d.pending[1..], written := if wrote then d.written + [Front(d)] else d.written)
  }

  function DrainWith(d: Driver, results: seq<WriteResult>): Driver
    decreases |results|
  {
    if d.media.None? || d.pending == [] || results == [] then d
    else match results[0]
      case Accepted => DrainWith(Pop(d, true), results[1..])
      case Failed => DrainWith(Pop(d, false), results[1..])
      case Full => d
      case ChannelGone => d
  }

  function Apply(d: Driver, op: Op): Driver {
    match op
    case Open(id, name) => if name == "control" then d.(control := Some(id)) else d.(media := Some(id))
    case Close(id) =>
      if d.media == Some(id) then d.(media := None, pending := [])
      else if d.control == Some(id) then d.(control := None)
      else d
    case Receive(data, queued) =>
      if d.media.None? then d
      else
        var latest := Latest(data, queued);
        d.(nextMsgId := (d.nextMsgId + 1) % U32_SPAN,
           pending := ChunksOf(d.nextMsgId, latest),
           frames := d.frames + [latest])
    case Drain(results) => DrainWith(d, results)
  }

  function Run(d: Driver, ops: seq<Op>): Driver
    decreases |ops|
  {
    if ops == [] then d else Run(Apply(d, ops[0]), ops[1..])
  }

  predicate Before(p: Packet, q: Packet) {
    p.n < q.n || (p.n == q.n && p.idx < q.idx)
  }

  /** The packet carries, byte for byte, one chunk of one frame that was chunked. */
  ghost predicate Genuine(frames: seq<Bytes>, p: Packet) {
    && 0 <= p.n < |frames|
    && 0 <= p.idx < |Slices(frames[p.n])|
    && p.bytes == ChunksOf(p.n % U32_SPAN, frames[p.n])[p.idx]
  }

  /** `pending` is a suffix of the last frame's chunks, and empty without a media channel. */
  ghost predicate QueueInv(d: Driver) {
    && d.nextMsgId == |d.frames| % U32_SPAN
    && (d.media.None? ==> d.pending == [])
    && IsSuffix(d.pending, LastChunks(d))
  }

  predicate IsSuffix(a: seq<Bytes>, b: seq<Bytes>) {
    |a| <= |b| && a == b[|b| - |a|..]
  }

  lemma SuffixLaws(a: seq<Bytes>, b: seq<Bytes>)
    ensures IsSuffix(b, b) && IsSuffix([], b)
    ensures IsSuffix(a, b) && a != [] ==> IsSuffix(a[1..], b)
  {
  }

  /** Everything written is genuine, in order, and precedes what is pending. */
  ghost predicate WrittenInv(d: Driver) {
    && (forall i :: 0 <= i < |d.written| ==> Genuine(d.frames, d.written[i]) && Preceding(d, d.written[i]))
    && (forall i, j :: 0 <= i < j < |d.written| ==> Before(d.written[i], d.written[j]))
  }

  ghost predicate Inv(d: Driver) {
    QueueInv(d) && WrittenInv(d)
  }

  predicate Preceding(d: Driver, p: Packet) {
    p.n < |d.frames| - 1 || (p.n == |d.frames| - 1 && p.idx < |LastChunks(d)| - |d.pending|)
  }

  lemma FrontGenuine(d: Driver)
    requires Inv(d) && d.pending != []
    ensures Genuine(d.frames, Front(d))
  {
  }

  lemma InvPop(d: Driver, wrote: bool)
    requires Inv(d) && d.pending != [] && d.media.Some?
    ensures Inv(Pop(d, wrote))
  {
    var next := Pop(d, wrote);
    assert LastChunks(next) == LastChunks(d);
    SuffixLaws(d.pending, LastChunks(d));
    FrontGenuine(d);
    forall i | 0 <= i < |next.written|
      ensures Genuine(next.frames, next.written[i]) && Preceding(next, next.written[i])
    {
      if i < |d.written| {
        assert Preceding(d, d.written[i]);
      }
    }
    forall i, j | 0 <= i < j < |next.written|
      ensures Before(next.written[i], next.written[j])
    {
      assert Preceding(d, d.written[i]);
    }
  }

  lemma {:induction false} InvDrain(d: Driver, results: seq<WriteResult>)
    requires Inv(d)
    ensures Inv(DrainWith(d, results))
    decreases |results|
  {
    if d.media.Some? && d.pending != [] && results != [] && (results[0].Accepted? || results[0].Failed?) {
      var next := Pop(d, results[0].Accepted?);
      InvPop(d, results[0].Accepted?);
      InvDrain(next, results[1..]);
    }
  }

  /** The id the chunker uses next is the position of the next frame, wrapped. */
  lemma NextId(count: nat)
    ensures (count % U32_SPAN + 1) % U32_SPAN == (count + 1) % U32_SPAN
  {
  }

  lemma ReceiveQueue(d: Driver, data: Bytes, queued: seq<Bytes>)
    requires QueueInv(d) && d.media.Some?
    ensures QueueInv(Apply(d, Receive(data, queued)))
  {
    var next := Apply(d, Receive(data, queued));
    NextId(|d.frames|);
    assert |next.frames| - 1 == |d.frames| && next.frames[|d.frames|] == Latest(data, queued);
    assert LastChunks(next) == next.pending;
    SuffixLaws([], next.pending);
  }

  lemma ReceiveWritten(d: Driver, data: Bytes, queued: seq<Bytes>)
    requires WrittenInv(d) && d.media.Some?
    ensures WrittenInv(Apply(d, Receive(data, queued)))
  {
    var next := Apply(d, Receive(data, queued));
    forall i | 0 <= i < |next.written|
      ensures Genuine(next.frames, next.written[i]) && Preceding(next, next.written[i])
    {
      assert Genuine(d.frames, d.written[i]);
    }
  }

  lemma InvReceive(d: Driver, data: Bytes, queued: seq<Bytes>)
    requires Inv(d) && d.media.Some?
    ensures Inv(Apply(d, Receive(data, queued)))
  {
    ReceiveQueue(d, data, queued);
    ReceiveWritten(d, data, queued);
  }

  /** Written packets stay before the queue when the queue only gets shorter. */
  lemma WrittenFrame(d: Driver, next: Driver)
    requires WrittenInv(d) && next.frames == d.frames && next.written == d.written && |next.pending| <= |d.pending|
    ensures WrittenInv(next)
  {
    assert LastChunks(next) == LastChunks(d);
    forall i | 0 <= i < |next.written|
      ensures Genuine(next.frames, next.written[i]) && Preceding(next, next.written[i])
    {
      assert Preceding(d, d.written[i]);
    }
  }

  lemma ChannelEffect(d: Driver, op: Op)
    requires QueueInv(d) && (op.Open? || op.Close?)
    ensures var next := Apply(d, op);
            && next.frames == d.frames && next.written == d.written && next.nextMsgId == d.nextMsgId
            && (next.pending == [] || (next.pending == d.pending && (d.media.Some? ==> next.media.Some?)))
  {
  }

  /** Any change of channels that keeps the queue, or empties it, keeps the invariant. */
  lemma ChannelsMove(d: Driver, next: Driver)
    requires Inv(d)
    requires next.frames == d.frames && next.written == d.written && next.nextMsgId == d.nextMsgId
    requires next.pending == [] || (next.pending == d.pending && (d.media.Some? ==> next.media.Some?))
    ensures Inv(next)
  {
    assert LastChunks(next) == LastChunks(d);
    SuffixLaws(d.pending, LastChunks(d));
    WrittenFrame(d, next);
  }

  lemma InvChannel(d: Driver, op: Op)
    requires Inv(d) && (op.Open? || op.Close?)
    ensures Inv(Apply(d, op))
  {
    ChannelEffect(d, op);
    ChannelsMove(d, Apply(d, op));
  }

  lemma {:induction false} DrainHistories(d: Driver, results: seq<WriteResult>)
    ensures DrainWith(d, results).frames == d.frames
    ensures d.written <= DrainWith(d, results).written
    decreases |results|
  {
    if d.media.Some? && d.pending != [] && results != [] && (results[0].Accepted? || results[0].Failed?) {
      DrainHistories(Pop(d, results[0].Accepted?), results[1..]);
    }
  }

  /** An operation changes the histories only by appending. */
  lemma HistoriesGrow(d: Driver, op: Op)
    ensures Apply(d, op).frames ==
            if op.Receive? && d.media.Some? then d.frames + [Latest(op.data, op.queued)] else d.frames
    ensures d.written <= Apply(d, op).written
  {
    if op.Drain? {
      DrainHistories(d, op.results);
    }
  }

  lemma InvStep(d: Driver, op: Op)
    requires Inv(d)
    ensures Inv(Apply(d, op))
  {
    match op
    case Drain(results) => InvDrain(d, results);
    case Receive(data, queued) =>
      if d.media.Some? {
        InvReceive(d, data, queued);
      }
    case Open(_, _) => InvChannel(d, op);
    case Close(_) => InvChannel(d, op);
  }

  lemma {:induction false} InvRun(d: Driver, ops: seq<Op>)
    requires Inv(d)
    ensures Inv(Run(d, ops))
    decreases |ops|
  {
    if ops != [] {
      InvStep(d, ops[0]);
      InvRun(Apply(d, ops[0]), ops[1..]);
    }
  }

  /** The queue is a suffix of the last frame's chunks and empty without a media channel; and
      the channel was given genuine chunks, each at most once, in nondecreasing frame order and
      strictly increasing index within a frame. */
  ghost predicate Disciplined(d: Driver) {
    && (d.media.None? ==> d.pending == [])
    && IsSuffix(d.pending, LastChunks(d))
    && (forall i :: 0 <= i < |d.written| ==> Genuine(d.frames, d.written[i]))
    && (forall i, j :: 0 <= i < j < |d.written| ==> Before(d.written[i], d.written[j]))
  }

  lemma IdleInv()
    ensures Inv(Idle)
  {
  }

  lemma InvDisciplined(d: Driver)
    requires Inv(d)
    ensures Disciplined(d)
  {
  }

  /** Over every run of the driver from its start the queue discipline holds. */
  lemma QueueDiscipline(ops: seq<Op>)
    ensures Disciplined(Run(Idle, ops))
  {
    IdleInv();
    InvRun(Idle, ops);
    InvDisciplined(Run(Idle, ops));
  }

  class MediaDriver {
    const chunker: Chunker
    var mediaChannelId: Option<ChannelId>
    var controlChannelId: Option<ChannelId>
    var pending: seq<Bytes>
    ghost var frames: seq<Bytes>
    ghost var written: seq<Packet>

    ghost function View(): Driver
      reads this, chunker
    {
      Driver(chunker.nextMsgId, mediaChannelId, controlChannelId, pending, frames, written)
    }

    constructor ()
      ensures View() == Idle && fresh(chunker)
    {
      chunker := new Chunker();
      mediaChannelId, controlChannelId := None, None;
      pending := [];
      frames, written := [], [];
    }

    method ChannelOpen(id: ChannelId, name: string)
      modifies this
      ensures View() == Apply(old(View()), Open(id, name))
    {
      if name == "control" {
        controlChannelId := Some(id);
      } else {
        mediaChannelId := Some(id);
      }
    }

    method ChannelClose(id: ChannelId)
      modifies this
      ensures View() == Apply(old(View()), Close(id))
    {
      if Some(id) == mediaChannelId {
        mediaChannelId := None;
        pending := [];
      } else if Some(id) == controlChannelId {
        controlChannelId := None;
      }
    }

    /** A frame arrives; the frames queued behind it are drained and only the last is kept. */
    method ReceiveFrame(data: Bytes, queued: seq<Bytes>)
      modifies this, chunker
      ensures View() == Apply(old(View()), Receive(data, queued))
    {
      var latest := data;
      var i := 0;
      while i < |queued|
        invariant 0 <= i <= |queued|
        invariant latest == Latest(data, queued[..i])
        invariant unchanged(this) && unchanged(chunker)
      {
        latest := queued[i];
        i := i + 1;
      }
      assert queued[..i] == queued;
      if mediaChannelId.Some? {
        pending := [];
        var chunks := chunker.Split(latest);
        var j := 0;
        while j < |chunks|
          invariant 0 <= j <= |chunks|
          invariant pending == chunks[..j]
          invariant chunker.nextMsgId == (old(chunker.nextMsgId) + 1) % U32_SPAN
          invariant unchanged(this`mediaChannelId, this`controlChannelId, this`frames, this`written)
        {
          pending := pending + [chunks[j]];
          j := j + 1;
        }
        frames := frames + [latest];
      }
    }

    /** Writes queued chunks until the buffer is full or the queue is empty. */
    method DrainPending(results: seq<WriteResult>)
      modifies this`pending, this`written
      ensures View() == Apply(old(View()), Drain(results))
    {
      if mediaChannelId.None? {
        return;
      }
      var i := 0;
      while pending != [] && i < |results|
        invariant 0 <= i <= |results|
        invariant DrainWith(View(), results[i..]) == DrainWith(old(View()), results)
        decreases |results| - i
      {
        ghost var front := Front(View());
        assert results[i..][1..] == results[i + 1..];
        match results[i] {
          case Accepted =>
            pending := pending[1..];
            written := written + [front];
          case Full => return;
          case ChannelGone => return;
          case Failed => pending := pending[1..];
        }
        i := i + 1;
      }
    }
  }
}
