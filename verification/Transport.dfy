/** End to end: driver queue, lossy reordering network, reassembler. */
module Transport {
  import opened Prelude
  import opened Wire
  import opened Chunking
  import opened FrameCollector
  import opened DeliveryLog
  import R = Reassembly
  import S = SerialRefinement
  import D = DriverQueue

  /** A surfaced payload: the position in the delivery log of the chunk that surfaced it, and
      that chunk's frame number. */
  datatype Surfaced = Surfaced(at: nat, n: int, payload: Bytes)

  /** Driver, chunks in flight, receiver; and two histories, the chunks delivered and the
      payloads surfaced. */
  datatype System = System(
    driver: D.Driver,
    net: multiset<D.Packet>,
    receiver: R.State,
    delivered: seq<D.Packet>,
    surfaced: seq<Surfaced>)

  const Start := System(D.Idle, multiset{}, R.Fresh, [], [])

  datatype Step =
    | Drive(op: D.Op)
    | Lose(p: D.Packet)
    | Duplicate(p: D.Packet)
    | Deliver(p: D.Packet)

  /** The chunk's frame number is comparable with the newest one delivered, as it is within
      2^31 - 1 of it. */
  ghost predicate InWindow(log: seq<D.Packet>, p: D.Packet) {
    forall q <- log :: NoneNewer(log, q.n) ==> S.Comparable(p.n, q.n)
  }

  /** The network acts on chunks in flight. Hypotheses on the environment: frames fit the
      16-bit chunk count, and deliveries stay in the half-window. */
  ghost predicate Enabled(s: System, step: Step) {
    match step
    case Drive(op) => op.Receive? ==> |D.Latest(op.data, op.queued)| <= MAX_PAYLOAD
    case Lose(p) => p in s.net
    case Duplicate(p) => p in s.net
    case Deliver(p) => p in s.net && InWindow(s.delivered, p)
  }

  /** The packets an operation of the driver puts on the network. */
  function Sent(before: D.Driver, after: D.Driver): seq<D.Packet> {
    if |before.written| <= |after.written| then after.written[|before.written|..] else []
  }

  function Apply(s: System, step: Step): System {
    match step
    case Drive(op) =>
      var d := D.Apply(s.driver, op);
      s.(driver := d, net := s.net + multiset(Sent(s.driver, d)))
    case Lose(p) => s.(net := s.net - multiset{p})
    case Duplicate(p) => s.(net := s.net + multiset{p})
    case Deliver(p) =>
      var r := R.OnChunk(s.receiver, p.bytes);
      System(s.driver,
             s.net - multiset{p},
             r.state,
             s.delivered + [p],
             s.surfaced + if r.out.Some? then [Surfaced(|s.delivered| + 1, p.n, r.out.value)] else [])
  }

  ghost predicate Legal(s: System, steps: seq<Step>)
    decreases |steps|
  {
    steps == [] || (Enabled(s, steps[0]) && Legal(Apply(s, steps[0]), steps[1..]))
  }

  function Run(s: System, steps: seq<Step>): System
    decreases |steps|
  {
    if steps == [] then s else Run(Apply(s, steps[0]), steps[1..])
  }

  predicate NeverDuplicates(steps: seq<Step>) {
    forall step <- steps :: !step.Duplicate?
  }

  /** The surfaced payloads a delivery log calls for. */
  function SurfacedOf(frames: seq<Bytes>, log: seq<D.Packet>): seq<Surfaced>
    requires Within(frames, log)
  {
    if log == [] then []
    else
      var n := log[|log| - 1].n;
      SurfacedOf(frames, log[..|log| - 1]) +
      if CollectLast(frames, log).surfaced then [Surfaced(|log|, n, frames[n])] else []
  }

  ghost predicate AllGenuine(frames: seq<Bytes>, log: seq<D.Packet>) {
    forall p <- log :: D.Genuine(frames, p)
  }

  /** The receiver refines the collector run over the delivery log. */
  ghost predicate ReceiverInv(frames: seq<Bytes>, log: seq<D.Packet>, receiver: R.State, surfaced: seq<Surfaced>) {
    && Sized(frames)
    && AllGenuine(frames, log)
    && Ok(frames, CollectAll(frames, log))
    && receiver == S.Wrap(Concrete(frames, CollectAll(frames, log)))
    && surfaced == SurfacedOf(frames, log)
  }

  ghost predicate ReceiverOk(s: System) {
    ReceiverInv(s.driver.frames, s.delivered, s.receiver, s.surfaced)
  }

  ghost predicate Inv(s: System) {
    && D.Inv(s.driver)
    && (forall p <- s.net :: D.Genuine(s.driver.frames, p))
    && ReceiverOk(s)
  }

  /** Frames chunked later do not change what earlier deliveries call for. */
  lemma {:induction false} FramesGrow(frames: seq<Bytes>, more: seq<Bytes>, log: seq<D.Packet>)
    requires frames <= more && Within(frames, log)
    ensures Within(more, log)
    ensures CollectAll(more, log) == CollectAll(frames, log)
    ensures SurfacedOf(more, log) == SurfacedOf(frames, log)
    decreases |log|
  {
    if log != [] {
      FramesGrow(frames, more, log[..|log| - 1]);
    }
  }

  lemma GenuineGrows(frames: seq<Bytes>, more: seq<Bytes>, log: seq<D.Packet>)
    requires frames <= more && AllGenuine(frames, log)
    ensures AllGenuine(more, log)
  {
    forall p <- log
      ensures D.Genuine(more, p)
    {
      assert D.Genuine(frames, p);
    }
  }

  lemma ConcreteGrows(frames: seq<Bytes>, more: seq<Bytes>, c: Collector)
    requires frames <= more && Ok(frames, c)
    ensures Ok(more, c) && Concrete(more, c) == Concrete(frames, c)
  {
  }

  lemma ReceiverGrows(frames: seq<Bytes>, more: seq<Bytes>, log: seq<D.Packet>,
                      receiver: R.State, surfaced: seq<Surfaced>)
    requires frames <= more && Sized(more) && ReceiverInv(frames, log, receiver, surfaced)
    ensures ReceiverInv(more, log, receiver, surfaced)
  {
    FramesGrow(frames, more, log);
    GenuineGrows(frames, more, log);
    ConcreteGrows(frames, more, CollectAll(frames, log));
  }

  /** The bytes of a genuine packet are the wire form of the sender's chunk. */
  lemma GenuineWire(frames: seq<Bytes>, p: D.Packet)
    requires Sized(frames) && D.Genuine(frames, p)
    ensures p.bytes == S.WireOf(FrameArrival(frames, p.n, p.idx))
  {
    ChunkAtFits(p.n % U32_SPAN, frames[p.n], p.idx);
  }

  /** The window on frame numbers is the window on the receiver's newest message. */
  lemma WindowAtReceiver(frames: seq<Bytes>, log: seq<D.Packet>, p: D.Packet)
    requires Sized(frames) && Within(frames, log) && D.Genuine(frames, p) && InWindow(log, p)
    requires Ok(frames, CollectAll(frames, log))
    ensures S.InWindow(Concrete(frames, CollectAll(frames, log)), FrameArrival(frames, p.n, p.idx))
  {
    CollectorSound(frames, log);
    var c := CollectAll(frames, log);
    if c.newest.Some? {
      var q :| q in log && q.n == c.newest.value;
    }
  }

  lemma ConcreteSingle(frames: seq<Bytes>, c: Collector)
    requires Ok(frames, c)
    ensures R.Single(Concrete(frames, c))
  {
  }

  /** Delivering a genuine packet inside the window is one step of the collector. */
  lemma DeliverStep(frames: seq<Bytes>, log: seq<D.Packet>, receiver: R.State, p: D.Packet)
    requires Sized(frames) && AllGenuine(frames, log) && D.Genuine(frames, p) && InWindow(log, p)
    requires Ok(frames, CollectAll(frames, log))
    requires receiver == S.Wrap(Concrete(frames, CollectAll(frames, log)))
    ensures var r := Collect(CollectAll(frames, log), p.n, p.idx, |Slices(frames[p.n])|);
            && Ok(frames, r.next)
            && R.OnChunk(receiver, p.bytes) ==
               R.Result(S.Wrap(Concrete(frames, r.next)), if r.surfaced then Some(frames[p.n]) else None)
  {
    var c := CollectAll(frames, log);
    GenuineWire(frames, p);
    CollectStep(frames, c, p.n, p.idx);
    WindowAtReceiver(frames, log, p);
    ConcreteSingle(frames, c);
    S.WrapStep(Concrete(frames, c), FrameArrival(frames, p.n, p.idx));
  }

  lemma ReceiverStep(frames: seq<Bytes>, log: seq<D.Packet>, receiver: R.State, surfaced: seq<Surfaced>, p: D.Packet)
    requires ReceiverInv(frames, log, receiver, surfaced) && D.Genuine(frames, p) && InWindow(log, p)
    ensures var r := R.OnChunk(receiver, p.bytes);
            ReceiverInv(frames, log + [p], r.state,
                        surfaced + if r.out.Some? then [Surfaced(|log| + 1, p.n, r.out.value)] else [])
  {
    DeliverStep(frames, log, receiver, p);
    var longer := log + [p];
    assert longer[..|longer| - 1] == log;
    assert AllGenuine(frames, longer);
  }

  lemma NetGrows(before: D.Driver, after: D.Driver, net: multiset<D.Packet>)
    requires D.Inv(after) && before.frames <= after.frames && forall p <- net :: D.Genuine(before.frames, p)
    ensures forall p <- net + multiset(Sent(before, after)) :: D.Genuine(after.frames, p)
  {
    forall p <- net + multiset(Sent(before, after))
      ensures D.Genuine(after.frames, p)
    {
      if p in net {
        assert D.Genuine(before.frames, p);
      } else {
        assert p in Sent(before, after);
        assert p in after.written;
      }
    }
  }

  /** The driver may move on in any way that only appends to its frames, within the bound. */
  lemma DriverMoves(s: System, d: D.Driver)
    requires Inv(s) && D.Inv(d) && s.driver.frames <= d.frames && Sized(d.frames)
    ensures Inv(s.(driver := d, net := s.net + multiset(Sent(s.driver, d))))
  {
    NetGrows(s.driver, d, s.net);
    ReceiverGrows(s.driver.frames, d.frames, s.delivered, s.receiver, s.surfaced);
  }

  lemma InvDrive(s: System, op: D.Op)
    requires Inv(s) && Enabled(s, Drive(op))
    ensures Inv(Apply(s, Drive(op)))
  {
    D.InvStep(s.driver, op);
    D.HistoriesGrow(s.driver, op);
    DriverMoves(s, D.Apply(s.driver, op));
  }

  /** The receiver may move on in any way that its invariant allows. */
  lemma ReceiverMoves(s: System, next: System)
    requires Inv(s) && next.driver == s.driver && next.net <= s.net && ReceiverOk(next)
    ensures Inv(next)
  {
  }

  lemma ReceiverDelivers(s: System, p: D.Packet)
    requires Inv(s) && Enabled(s, Deliver(p))
    ensures ReceiverOk(Apply(s, Deliver(p)))
  {
    ReceiverStep(s.driver.frames, s.delivered, s.receiver, s.surfaced, p);
  }

  lemma InvDeliver(s: System, p: D.Packet)
    requires Inv(s) && Enabled(s, Deliver(p))
    ensures Inv(Apply(s, Deliver(p)))
  {
    ReceiverDelivers(s, p);
    ReceiverMoves(s, Apply(s, Deliver(p)));
  }

  lemma InvStep(s: System, step: Step)
    requires Inv(s) && Enabled(s, step)
    ensures Inv(Apply(s, step))
  {
    match step
    case Drive(op) => InvDrive(s, op);
    case Deliver(p) => InvDeliver(s, p);
    case Lose(p) =>
    case Duplicate(p) =>
  }

  lemma {:induction false} InvRun(s: System, steps: seq<Step>)
    requires Inv(s) && Legal(s, steps)
    ensures Inv(Run(s, steps))
    decreases |steps|
  {
    if steps != [] {
      InvStep(s, steps[0]);
      InvRun(Apply(s, steps[0]), steps[1..]);
    }
  }

  ghost predicate EntryOk(frames: seq<Bytes>, log: seq<D.Packet>, e: Surfaced)
    requires Within(frames, log)
  {
    && SurfacesAt(frames, log, e.at)
    && e.n == log[e.at - 1].n
    && 0 <= e.n < |frames|
    && e.payload == frames[e.n]
  }

  /** Some entry was surfaced by the k-th delivered chunk. */
  ghost predicate Stands(entries: seq<Surfaced>, k: int) {
    exists i :: 0 <= i < |entries| && entries[i].at == k
  }

  /** Entries are in log order, carry their frame's bytes, and stand exactly at the chunks
      that surface. */
  ghost predicate Faithful(frames: seq<Bytes>, log: seq<D.Packet>, entries: seq<Surfaced>)
    requires Within(frames, log)
  {
    && (forall i :: 0 <= i < |entries| ==> EntryOk(frames, log, entries[i]))
    && (forall i, j :: 0 <= i < j < |entries| ==> entries[i].at < entries[j].at)
    && (forall k | SurfacesAt(frames, log, k) :: Stands(entries, k))
  }

  lemma {:induction false} SurfacedFaithful(frames: seq<Bytes>, log: seq<D.Packet>)
    requires Within(frames, log)
    ensures Faithful(frames, log, SurfacedOf(frames, log))
    decreases |log|
  {
    if log != [] {
      SurfacedFaithful(frames, log[..|log| - 1]);
      assert log[..|log|] == log;
      var earlier := SurfacedOf(frames, log[..|log| - 1]);
      if SurfacesAt(frames, log, |log|) {
        FaithfulEntry(frames, log, earlier);
      } else {
        FaithfulSilent(frames, log, earlier);
        assert SurfacedOf(frames, log) == earlier;
      }
    }
  }

  lemma EntryExtends(frames: seq<Bytes>, log: seq<D.Packet>, e: Surfaced)
    requires log != [] && Within(frames, log) && EntryOk(frames, log[..|log| - 1], e)
    ensures EntryOk(frames, log, e) && e.at < |log|
  {
    SurfacesAtPrefix(frames, log, |log| - 1, e.at);
  }

  lemma EntriesExtend(frames: seq<Bytes>, log: seq<D.Packet>, earlier: seq<Surfaced>)
    requires Within(frames, log) && log != [] && Faithful(frames, log[..|log| - 1], earlier)
    ensures forall i :: 0 <= i < |earlier| ==> EntryOk(frames, log, earlier[i]) && earlier[i].at < |log|
    ensures forall k | SurfacesAt(frames, log, k) && k < |log| :: Stands(earlier, k)
  {
    forall i | 0 <= i < |earlier|
      ensures EntryOk(frames, log, earlier[i]) && earlier[i].at < |log|
    {
      EntryExtends(frames, log, earlier[i]);
    }
    forall k | SurfacesAt(frames, log, k) && k < |log|
      ensures Stands(earlier, k)
    {
      SurfacesAtPrefix(frames, log, |log| - 1, k);
    }
  }

  lemma FaithfulSilent(frames: seq<Bytes>, log: seq<D.Packet>, entries: seq<Surfaced>)
    requires Within(frames, log) && log != [] && !SurfacesAt(frames, log, |log|)
    requires Faithful(frames, log[..|log| - 1], entries)
    ensures Faithful(frames, log, entries)
  {
    EntriesExtend(frames, log, entries);
  }

  lemma StandsSnoc(entries: seq<Surfaced>, e: Surfaced, k: int)
    ensures Stands(entries + [e], k) <==> Stands(entries, k) || e.at == k
  {
    var more := entries + [e];
    assert more[|entries|] == e;
    if i :| 0 <= i < |entries| && entries[i].at == k {
      assert more[i].at == k;
    }
  }

  lemma EntryAtEnd(frames: seq<Bytes>, log: seq<D.Packet>)
    requires Within(frames, log) && log != [] && SurfacesAt(frames, log, |log|)
    ensures var n := log[|log| - 1].n;
            EntryOk(frames, log, Surfaced(|log|, n, frames[n]))
  {
    assert log[|log| - 1] in log;
  }

  lemma FaithfulEntry(frames: seq<Bytes>, log: seq<D.Packet>, earlier: seq<Surfaced>)
    requires Within(frames, log) && log != [] && SurfacesAt(frames, log, |log|)
    requires Faithful(frames, log[..|log| - 1], earlier)
    ensures var n := log[|log| - 1].n;
            Faithful(frames, log, earlier + [Surfaced(|log|, n, frames[n])])
  {
    EntriesExtend(frames, log, earlier);
    EntryAtEnd(frames, log);
    var n := log[|log| - 1].n;
    var e := Surfaced(|log|, n, frames[n]);
    SnocOrdered(earlier, e);
    assert forall i :: 0 <= i < |earlier + [e]| ==> EntryOk(frames, log, (earlier + [e])[i]);
    forall k | SurfacesAt(frames, log, k)
      ensures Stands(earlier + [e], k)
    {
      StandsSnoc(earlier, e, k);
    }
  }

  lemma SnocOrdered(entries: seq<Surfaced>, e: Surfaced)
    requires forall i, j :: 0 <= i < j < |entries| ==> entries[i].at < entries[j].at
    requires forall i :: 0 <= i < |entries| ==> entries[i].at < e.at
    ensures forall i, j :: 0 <= i < j < |entries + [e]| ==> (entries + [e])[i].at < (entries + [e])[j].at
  {
  }

  // ---------- networks that do not duplicate ----------

  /** Every chunk in flight or delivered accounts for a separate write. */
  ghost predicate AtMostOnce(s: System) {
    s.net + multiset(s.delivered) <= multiset(s.driver.written)
  }

  lemma SentAccounted(net: multiset<D.Packet>, log: seq<D.Packet>, before: seq<D.Packet>, sent: seq<D.Packet>)
    requires net + multiset(log) <= multiset(before)
    ensures net + multiset(sent) + multiset(log) <= multiset(before + sent)
  {
  }

  lemma AtMostOnceDrive(s: System, op: D.Op)
    requires AtMostOnce(s)
    ensures AtMostOnce(Apply(s, Drive(op)))
  {
    D.HistoriesGrow(s.driver, op);
    var d := D.Apply(s.driver, op);
    SentAccounted(s.net, s.delivered, s.driver.written, Sent(s.driver, d));
    assert d.written == s.driver.written + Sent(s.driver, d);
  }

  lemma AtMostOnceDeliver(s: System, p: D.Packet)
    requires AtMostOnce(s) && p in s.net
    ensures AtMostOnce(Apply(s, Deliver(p)))
  {
    assert s.net - multiset{p} + multiset(s.delivered + [p]) == s.net + multiset(s.delivered);
  }

  lemma AtMostOnceStep(s: System, step: Step)
    requires D.Inv(s.driver) && AtMostOnce(s) && Enabled(s, step) && !step.Duplicate?
    ensures AtMostOnce(Apply(s, step))
  {
    match step
    case Drive(op) => AtMostOnceDrive(s, op);
    case Deliver(p) => AtMostOnceDeliver(s, p);
    case Lose(p) =>
  }

  lemma {:induction false} AtMostOnceRun(s: System, steps: seq<Step>)
    requires Inv(s) && AtMostOnce(s) && Legal(s, steps) && NeverDuplicates(steps)
    ensures AtMostOnce(Run(s, steps))
    decreases |steps|
  {
    if steps != [] {
      InvStep(s, steps[0]);
      AtMostOnceStep(s, steps[0]);
      AtMostOnceRun(Apply(s, steps[0]), steps[1..]);
    }
  }

  lemma {:induction false} OrderedCounts(written: seq<D.Packet>, p: D.Packet)
    requires forall i, j :: 0 <= i < j < |written| ==> D.Before(written[i], written[j])
    ensures multiset(written)[p] <= 1
  {
    if written != [] {
      var prefix, last := written[..|written| - 1], written[|written| - 1];
      OrderedCounts(prefix, p);
      assert written == prefix + [last];
      forall i | 0 <= i < |prefix|
        ensures prefix[i] != last
      {
        assert D.Before(written[i], written[|written| - 1]);
      }
    }
  }

  lemma RepeatCounts(log: seq<D.Packet>, i: int, j: int)
    requires 0 <= i < j < |log| && log[i] == log[j]
    ensures multiset(log)[log[i]] >= 2
  {
    assert log == log[..j] + log[j..];
    assert log[i] in log[..j] by {
      assert log[..j][i] == log[i];
    }
    assert log[j..][0] == log[j] && log[j] in log[j..];
  }

  /** Delivered chunks are distinct when the network never duplicates. */
  lemma DeliveredDistinct(s: System)
    requires Inv(s) && AtMostOnce(s)
    ensures Distinct(s.delivered)
  {
    var log := s.delivered;
    forall i, j | 0 <= i < j < |log|
      ensures (log[i].n, log[i].idx) != (log[j].n, log[j].idx)
    {
      assert D.Genuine(s.driver.frames, log[i]) && D.Genuine(s.driver.frames, log[j]);
      if log[i] == log[j] {
        RepeatCounts(log, i, j);
        OrderedCounts(s.driver.written, log[i]);
        assert false;
      }
    }
  }

  // ---------- theorems ----------

  /** The entry carries, byte for byte, a sent frame that at that point of the delivery log
      was the newest delivered and fully delivered. */
  ghost predicate Justified(frames: seq<Bytes>, log: seq<D.Packet>, e: Surfaced) {
    && 0 < e.at <= |log|
    && 0 <= e.n < |frames|
    && e.payload == frames[e.n]
    && e.n == log[e.at - 1].n
    && NoneNewer(log[..e.at], e.n)
    && Complete(frames, log[..e.at], e.n)
  }

  /** The k-th delivered chunk completes its frame, and nothing newer was delivered before. */
  ghost predicate CompletesAt(frames: seq<Bytes>, log: seq<D.Packet>, k: nat)
    requires 0 < k <= |log|
  {
    var n := log[k - 1].n;
    0 <= n < |frames| && NoneNewer(log[..k], n) && Complete(frames, log[..k], n)
  }

  lemma EntryJustified(frames: seq<Bytes>, log: seq<D.Packet>, e: Surfaced)
    requires Within(frames, log) && EntryOk(frames, log, e)
    ensures Justified(frames, log, e)
  {
    SurfacesOnlyComplete(frames, log[..e.at]);
  }

  lemma JustifiedOrder(frames: seq<Bytes>, log: seq<D.Packet>, e: Surfaced, f: Surfaced)
    requires Justified(frames, log, e) && Justified(frames, log, f) && e.at <= f.at
    ensures e.n <= f.n
  {
    assert log[..f.at][e.at - 1] == log[e.at - 1];
  }

  lemma StartInv()
    ensures Inv(Start) && AtMostOnce(Start)
  {
  }

  /** Every surfaced entry is justified and the frame numbers never go down. */
  ghost predicate NeverBackwards(frames: seq<Bytes>, log: seq<D.Packet>, entries: seq<Surfaced>) {
    && (forall i :: 0 <= i < |entries| ==> Justified(frames, log, entries[i]))
    && (forall i, j :: 0 <= i < j < |entries| ==> entries[i].n <= entries[j].n)
  }

  lemma FaithfulNeverBackwards(frames: seq<Bytes>, log: seq<D.Packet>, entries: seq<Surfaced>)
    requires Within(frames, log) && Faithful(frames, log, entries)
    ensures NeverBackwards(frames, log, entries)
  {
    forall i | 0 <= i < |entries|
      ensures Justified(frames, log, entries[i])
    {
      EntryJustified(frames, log, entries[i]);
    }
    forall i, j | 0 <= i < j < |entries|
      ensures entries[i].n <= entries[j].n
    {
      JustifiedOrder(frames, log, entries[i], entries[j]);
    }
  }

  lemma SurfacedIsSentFrom(start: System, steps: seq<Step>)
    requires Inv(start) && Legal(start, steps)
    ensures var s := Run(start, steps);
            NeverBackwards(s.driver.frames, s.delivered, s.surfaced)
  {
    InvRun(start, steps);
    var s := Run(start, steps);
    SurfacedFaithful(s.driver.frames, s.delivered);
    FaithfulNeverBackwards(s.driver.frames, s.delivered, s.surfaced);
  }

  /** On any network, even one that duplicates chunks: every surfaced payload is byte for byte
      a frame that was sent, the newest one delivered at that point and fully delivered; so
      the surfaced order never goes backwards and a repeat is the same frame again. */
  lemma SurfacedIsSent(steps: seq<Step>)
    requires Legal(Start, steps)
    ensures var s := Run(Start, steps);
            NeverBackwards(s.driver.frames, s.delivered, s.surfaced)
  {
    StartInv();
    SurfacedIsSentFrom(Start, steps);
  }

  /** The k-th delivered chunk completes what is pending of its frame, with nothing newer before. */
  ghost predicate CompletesPending(frames: seq<Bytes>, log: seq<D.Packet>, k: nat)
    requires Within(frames, log) && 0 < k <= |log|
  {
    var n := log[k - 1].n;
    NoneNewer(log[..k], n) && Complete(frames, Pending(frames, log[..k]), n)
  }

  ghost predicate SurfacedBy(entries: seq<Surfaced>, n: int, k: nat) {
    exists i :: 0 <= i < |entries| && entries[i].n == n && entries[i].at <= k
  }

  /** Entries stand exactly at the chunks that complete what is pending of their frame, and no
      frame that is complete with nothing newer delivered is missing. */
  ghost predicate NoneMissed(frames: seq<Bytes>, log: seq<D.Packet>, entries: seq<Surfaced>)
    requires Within(frames, log)
  {
    && (forall k :: 0 < k <= |log| ==>
          (Stands(entries, k) <==> CompletesPending(frames, log, k)))
    && (forall k, n :: 0 <= k <= |log| && 0 <= n < |frames| && NoneNewer(log[..k], n) ==>
          Complete(frames, log[..k], n) ==> SurfacedBy(entries, n, k))
  }

  lemma CompleteIsSurfaced(frames: seq<Bytes>, log: seq<D.Packet>, entries: seq<Surfaced>, k: nat, n: int)
    requires Within(frames, log) && Faithful(frames, log, entries) && k <= |log|
    requires 0 <= n < |frames| && NoneNewer(log[..k], n) && Complete(frames, log[..k], n)
    ensures SurfacedBy(entries, n, k)
  {
    CompleteHasSurfaced(frames, log[..k], n);
    LastSurfacedIsLast(frames, log[..k], n);
    var at := LastSurfaced(frames, log[..k], n);
    SurfacesAtPrefix(frames, log, k, at);
    var i :| 0 <= i < |entries| && entries[i].at == at;
    assert EntryOk(frames, log, entries[i]);
  }

  lemma SurfacedIffPending(frames: seq<Bytes>, log: seq<D.Packet>, entries: seq<Surfaced>, k: nat)
    requires Within(frames, log) && Faithful(frames, log, entries) && 0 < k <= |log|
    ensures Stands(entries, k) <==> CompletesPending(frames, log, k)
  {
    SurfacesExactly(frames, log[..k]);
    assert SurfacesAt(frames, log, k) <==> CompletesPending(frames, log, k);
    if i :| 0 <= i < |entries| && entries[i].at == k {
      assert EntryOk(frames, log, entries[i]);
    }
  }

  lemma FaithfulNoneMissed(frames: seq<Bytes>, log: seq<D.Packet>, entries: seq<Surfaced>)
    requires Within(frames, log) && Faithful(frames, log, entries)
    ensures NoneMissed(frames, log, entries)
  {
    forall k | 0 < k <= |log|
      ensures Stands(entries, k) <==> CompletesPending(frames, log, k)
    {
      SurfacedIffPending(frames, log, entries, k);
    }
    forall k, n | 0 <= k <= |log| && 0 <= n < |frames| && NoneNewer(log[..k], n) && Complete(frames, log[..k], n)
      ensures SurfacedBy(entries, n, k)
    {
      CompleteIsSurfaced(frames, log, entries, k, n);
    }
  }

  lemma NothingMissedFrom(start: System, steps: seq<Step>)
    requires Inv(start) && Legal(start, steps)
    ensures var s := Run(start, steps);
            Within(s.driver.frames, s.delivered) && NoneMissed(s.driver.frames, s.delivered, s.surfaced)
  {
    InvRun(start, steps);
    var s := Run(start, steps);
    SurfacedFaithful(s.driver.frames, s.delivered);
    FaithfulNoneMissed(s.driver.frames, s.delivered, s.surfaced);
  }

  /** On any network, even one that duplicates chunks: a frame is surfaced at a delivered chunk
      if and only if nothing newer came before and the chunks delivered since that frame last
      surfaced are all of them; so a frame that is complete unsuperseded has been surfaced. */
  lemma NothingMissed(steps: seq<Step>)
    requires Legal(Start, steps)
    ensures var s := Run(Start, steps);
            Within(s.driver.frames, s.delivered) && NoneMissed(s.driver.frames, s.delivered, s.surfaced)
  {
    StartInv();
    NothingMissedFrom(Start, steps);
  }

  lemma DeliveredEarlier(frames: seq<Bytes>, log: seq<D.Packet>, k: nat, p: D.Packet) returns (i: nat)
    requires k <= |log| && 0 <= p.n < |frames| && 0 <= p.idx < |Slices(frames[p.n])|
    requires Complete(frames, log[..k], p.n)
    ensures i < k && log[i].n == p.n && log[i].idx == p.idx
  {
    assert p.idx in Indices(log[..k], p.n);
    var q :| q in log[..k] && q.n == p.n && q.idx == p.idx;
    i :| 0 <= i < k && log[..k][i] == q;
  }

  lemma NoRepeat(frames: seq<Bytes>, log: seq<D.Packet>, e: Surfaced, f: Surfaced)
    requires Within(frames, log) && Distinct(log) && Justified(frames, log, e) && Justified(frames, log, f)
    requires e.at < f.at
    ensures e.n < f.n
  {
    JustifiedOrder(frames, log, e, f);
    if e.n == f.n {
      var i := DeliveredEarlier(frames, log, e.at, log[f.at - 1]);
      assert false;
    }
  }

  /** A delivered chunk surfaces its frame if and only if it completes it unsuperseded. */
  lemma SurfacedIffCompletes(frames: seq<Bytes>, log: seq<D.Packet>, entries: seq<Surfaced>, k: nat)
    requires Within(frames, log) && Distinct(log) && Faithful(frames, log, entries) && 0 < k <= |log|
    ensures Stands(entries, k) <==> CompletesAt(frames, log, k)
  {
    SurfacesWhenComplete(frames, log[..k]);
    assert log[k - 1] in log;
    assert SurfacesAt(frames, log, k) <==> CompletesAt(frames, log, k);
    if i :| 0 <= i < |entries| && entries[i].at == k {
      assert EntryOk(frames, log, entries[i]);
    }
  }

  /** The surfaced frames are sent frames in strictly increasing order, surfaced exactly where
      the delivery log completes a frame. */
  ghost predicate ExactlyOnce(frames: seq<Bytes>, log: seq<D.Packet>, entries: seq<Surfaced>) {
    && (forall i :: 0 <= i < |entries| ==> Justified(frames, log, entries[i]))
    && (forall i, j :: 0 <= i < j < |entries| ==> entries[i].n < entries[j].n)
    && (forall k :: 0 < k <= |log| ==>
          (Stands(entries, k) <==> CompletesAt(frames, log, k)))
  }

  lemma FaithfulIsExact(frames: seq<Bytes>, log: seq<D.Packet>, entries: seq<Surfaced>)
    requires Within(frames, log) && Distinct(log) && Faithful(frames, log, entries)
    ensures ExactlyOnce(frames, log, entries)
  {
    forall i | 0 <= i < |entries|
      ensures Justified(frames, log, entries[i])
    {
      EntryJustified(frames, log, entries[i]);
    }
    forall i, j | 0 <= i < j < |entries|
      ensures entries[i].n < entries[j].n
    {
      NoRepeat(frames, log, entries[i], entries[j]);
    }
    forall k | 0 < k <= |log|
      ensures Stands(entries, k) <==> CompletesAt(frames, log, k)
    {
      SurfacedIffCompletes(frames, log, entries, k);
    }
  }

  lemma EndToEndFrom(start: System, steps: seq<Step>)
    requires Inv(start) && AtMostOnce(start) && Legal(start, steps) && NeverDuplicates(steps)
    ensures var s := Run(start, steps);
            ExactlyOnce(s.driver.frames, s.delivered, s.surfaced)
  {
    InvRun(start, steps);
    AtMostOnceRun(start, steps);
    var s := Run(start, steps);
    DeliveredDistinct(s);
    SurfacedFaithful(s.driver.frames, s.delivered);
    FaithfulIsExact(s.driver.frames, s.delivered, s.surfaced);
  }

  /** End to end, on a lossy and reordering network that does not duplicate: surfaced frames
      are sent frames, byte for byte, in strictly increasing send order, and a frame is
      surfaced at a delivered chunk if and only if that chunk completes it and nothing newer
      was delivered before. */
  lemma EndToEnd(steps: seq<Step>)
    requires Legal(Start, steps) && NeverDuplicates(steps)
    ensures var s := Run(Start, steps);
            ExactlyOnce(s.driver.frames, s.delivered, s.surfaced)
  {
    StartInv();
    EndToEndFrom(Start, steps);
  }
}
