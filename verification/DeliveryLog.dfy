/** What the collector surfaces over a whole log of delivered chunks, said without the
    collector: a chunk surfaces its frame exactly when it completes it and nothing newer
    has been delivered. */
module DeliveryLog {
  import opened Prelude
  import opened Wire
  import opened Chunking
  import opened FrameCollector
  import opened DriverQueue

  /** Every logged packet is a chunk of one of the frames. */
  ghost predicate Within(frames: seq<Bytes>, log: seq<Packet>) {
    forall p <- log :: 0 <= p.n < |frames| && 0 <= p.idx < |Slices(frames[p.n])|
  }

  /** No chunk occurs twice. */
  ghost predicate Distinct(log: seq<Packet>) {
    forall i, j :: 0 <= i < j < |log| ==> (log[i].n, log[i].idx) != (log[j].n, log[j].idx)
  }

  function CollectAll(frames: seq<Bytes>, log: seq<Packet>): Collector
    requires Within(frames, log)
    decreases |log|, 1
  {
    if log == [] then Nothing else CollectLast(frames, log).next
  }

  function CollectLast(frames: seq<Bytes>, log: seq<Packet>): Collected
    requires log != [] && Within(frames, log)
    decreases |log|, 0
  {
    var last := log[|log| - 1];
    Collect(CollectAll(frames, log[..|log| - 1]), last.n, last.idx, |Slices(frames[last.n])|)
  }

  /** The indices of frame n among the logged packets. */
  ghost function Indices(log: seq<Packet>, n: int): set<int> {
    set p | p in log && p.n == n :: p.idx
  }

  ghost predicate NoneNewer(log: seq<Packet>, n: int) {
    forall p <- log :: p.n <= n
  }

  /** Every chunk of frame n has been delivered. */
  ghost predicate Complete(frames: seq<Bytes>, log: seq<Packet>, n: int)
    requires 0 <= n < |frames|
  {
    forall i :: 0 <= i < |Slices(frames[n])| ==> i in Indices(log, n)
  }

  lemma IndicesSnoc(log: seq<Packet>, p: Packet, n: int)
    ensures Indices(log + [p], n) == Indices(log, n) + if p.n == n then {p.idx} else {}
  {
    assert forall q :: q in log + [p] <==> q in log || q == p;
  }

  /** The collector's newest frame is the log's newest, and what it holds of that frame has
      been delivered. */
  ghost predicate Tracks(log: seq<Packet>, c: Collector) {
    match c.newest
    case None => log == []
    case Some(n) => NoneNewer(log, n) && (exists p <- log :: p.n == n) && c.got <= Indices(log, n)
  }

  lemma TracksStep(log: seq<Packet>, c: Collector, p: Packet, total: nat)
    requires Tracks(log, c) && 0 <= p.n && 0 <= p.idx
    ensures Tracks(log + [p], Collect(c, p.n, p.idx, total).next)
  {
    if c.newest.Some? {
      IndicesSnoc(log, p, c.newest.value);
      if p.n <= c.newest.value {
        var q :| q in log && q.n == c.newest.value;
        assert q in log + [p];
      }
    }
    IndicesSnoc(log, p, p.n);
    assert p in log + [p];
  }

  lemma {:induction false} CollectorSound(frames: seq<Bytes>, log: seq<Packet>)
    requires Within(frames, log)
    ensures Tracks(log, CollectAll(frames, log))
    decreases |log|
  {
    if log != [] {
      var prefix, last := log[..|log| - 1], log[|log| - 1];
      assert log == prefix + [last];
      CollectorSound(frames, prefix);
      var c, total := CollectAll(frames, prefix), |Slices(frames[last.n])|;
      TracksStep(prefix, c, last, total);
      assert CollectAll(frames, log) == CollectLast(frames, log).next == Collect(c, last.n, last.idx, total).next;
    }
  }

  /** Surfacing is never wrong, even with repeats: the surfaced frame is the newest delivered
      and all its chunks have been delivered. */
  lemma SurfacesOnlyComplete(frames: seq<Bytes>, log: seq<Packet>)
    requires log != [] && Within(frames, log) && CollectLast(frames, log).surfaced
    ensures var n := log[|log| - 1].n;
            NoneNewer(log, n) && Complete(frames, log, n)
  {
    var prefix, last := log[..|log| - 1], log[|log| - 1];
    assert log == prefix + [last];
    CollectorSound(frames, prefix);
    IndicesSnoc(prefix, last, last.n);
    var c := CollectAll(frames, prefix);
    var got := (if c.newest == Some(last.n) then c.got else {}) + {last.idx};
    assert got == Range(|Slices(frames[last.n])|);
    assert got <= Indices(log, last.n);
  }

  /** The k-th delivered chunk makes the receiver surface its frame. */
  ghost predicate SurfacesAt(frames: seq<Bytes>, log: seq<Packet>, k: int)
    requires Within(frames, log)
  {
    0 < k <= |log| && CollectLast(frames, log[..k]).surfaced
  }

  lemma SurfacesAtPrefix(frames: seq<Bytes>, log: seq<Packet>, m: nat, k: nat)
    requires Within(frames, log) && k <= m <= |log|
    ensures SurfacesAt(frames, log[..m], k) <==> SurfacesAt(frames, log, k)
  {
    assert log[..m][..k] == log[..k];
  }

  /** How much of the log had been delivered when frame n last surfaced, 0 if it never did. */
  ghost function LastSurfaced(frames: seq<Bytes>, log: seq<Packet>, n: int): (k: nat)
    requires Within(frames, log)
    ensures k <= |log|
  {
    if log == [] then 0
    else if log[|log| - 1].n == n && CollectLast(frames, log).surfaced then |log|
    else LastSurfaced(frames, log[..|log| - 1], n)
  }

  ghost predicate LastAt(frames: seq<Bytes>, log: seq<Packet>, n: int, k: nat)
    requires Within(frames, log)
  {
    && k <= |log|
    && (k > 0 ==> log[k - 1].n == n && SurfacesAt(frames, log, k))
    && (forall j :: k < j <= |log| && SurfacesAt(frames, log, j) ==> log[j - 1].n != n)
  }

  lemma LastAtExtends(frames: seq<Bytes>, log: seq<Packet>, n: int, k: nat)
    requires log != [] && Within(frames, log) && LastAt(frames, log[..|log| - 1], n, k)
    requires SurfacesAt(frames, log, |log|) ==> log[|log| - 1].n != n
    ensures LastAt(frames, log, n, k)
  {
    var m := |log| - 1;
    SurfacesAtPrefix(frames, log, m, k);
    forall j | k < j <= |log| && SurfacesAt(frames, log, j)
      ensures log[j - 1].n != n
    {
      if j <= m {
        SurfacesAtPrefix(frames, log, m, j);
        assert log[..m][j - 1] == log[j - 1];
      }
    }
  }

  lemma {:induction false} LastSurfacedIsLast(frames: seq<Bytes>, log: seq<Packet>, n: int)
    requires Within(frames, log)
    ensures LastAt(frames, log, n, LastSurfaced(frames, log, n))
    decreases |log|
  {
    if log != [] {
      assert log[..|log|] == log;
      LastSurfacedIsLast(frames, log[..|log| - 1], n);
      if !(log[|log| - 1].n == n && CollectLast(frames, log).surfaced) {
        LastAtExtends(frames, log, n, LastSurfaced(frames, log[..|log| - 1], n));
      }
    }
  }

  /** The chunks delivered since frame n last surfaced. */
  ghost function Since(frames: seq<Bytes>, log: seq<Packet>, n: int): seq<Packet>
    requires Within(frames, log)
  {
    log[LastSurfaced(frames, log, n)..]
  }

  lemma SinceSnoc(frames: seq<Bytes>, log: seq<Packet>, n: int)
    requires log != [] && Within(frames, log)
    ensures var last := log[|log| - 1];
            Since(frames, log, n) ==
            if last.n == n && CollectLast(frames, log).surfaced then []
            else Since(frames, log[..|log| - 1], n) + [last]
  {
    var prefix := log[..|log| - 1];
    var k := LastSurfaced(frames, prefix, n);
    assert log[k..] == prefix[k..] + [log[|log| - 1]];
    assert log[|log|..] == [];
  }

  lemma NothingComplete(frames: seq<Bytes>, n: int)
    requires 0 <= n < |frames|
    ensures !Complete(frames, [], n)
  {
    assert 0 < |Slices(frames[n])|;
    assert 0 !in Indices([], n);
  }

  lemma CompleteIsRange(frames: seq<Bytes>, log: seq<Packet>, n: int)
    requires Within(frames, log) && 0 <= n < |frames|
    ensures Indices(log, n) == Range(|Slices(frames[n])|) <==> Complete(frames, log, n)
  {
    assert forall i <- Indices(log, n) :: i in Range(|Slices(frames[n])|);
  }

  /** Of its newest frame the collector holds exactly the indices delivered since that frame
      last surfaced, and they are not all. */
  ghost predicate Exact(frames: seq<Bytes>, log: seq<Packet>, c: Collector)
    requires Within(frames, log)
  {
    c.newest.Some? ==>
      var n := c.newest.value;
      && n < |frames|
      && c.got == Indices(Since(frames, log, n), n)
      && !Complete(frames, Since(frames, log, n), n)
  }

  /** A stale chunk changes neither the collector nor what it holds. */
  lemma StaleKeepsExact(frames: seq<Bytes>, log: seq<Packet>, c: Collector)
    requires log != [] && Within(frames, log) && Exact(frames, log[..|log| - 1], c)
    requires c.newest.Some? && log[|log| - 1].n != c.newest.value
    ensures Exact(frames, log, c)
  {
    var n := c.newest.value;
    SinceSnoc(frames, log, n);
    IndicesSnoc(Since(frames, log[..|log| - 1], n), log[|log| - 1], n);
  }

  /** The chunks delivered since the last chunk's frame last surfaced before it. */
  ghost function Pending(frames: seq<Bytes>, log: seq<Packet>): seq<Packet>
    requires log != [] && Within(frames, log)
  {
    var last := log[|log| - 1];
    Since(frames, log[..|log| - 1], last.n) + [last]
  }

  /** A chunk not older than the collector's frame is added to what is pending of its own. */
  lemma AddsToPending(frames: seq<Bytes>, log: seq<Packet>)
    requires log != [] && Within(frames, log)
    requires var c := CollectAll(frames, log[..|log| - 1]);
             Exact(frames, log[..|log| - 1], c) && (c.newest.Some? ==> c.newest.value <= log[|log| - 1].n)
    ensures var c, last := CollectAll(frames, log[..|log| - 1]), log[|log| - 1];
            (if c.newest == Some(last.n) then c.got else {}) + {last.idx} == Indices(Pending(frames, log), last.n)
  {
    var prefix, last := log[..|log| - 1], log[|log| - 1];
    var since := Since(frames, prefix, last.n);
    IndicesSnoc(since, last, last.n);
    if CollectAll(frames, prefix).newest != Some(last.n) {
      CollectorSound(frames, prefix);
      assert forall p <- since :: p in prefix;
      assert Indices(since, last.n) == {};
    }
  }

  lemma PendingWithin(frames: seq<Bytes>, log: seq<Packet>)
    requires log != [] && Within(frames, log)
    ensures Within(frames, Pending(frames, log))
  {
    forall p <- Pending(frames, log)
      ensures p in log
    {
    }
  }

  /** Such a chunk surfaces its frame exactly when what is pending completes it. */
  lemma AddsLast(frames: seq<Bytes>, log: seq<Packet>)
    requires log != [] && Within(frames, log)
    requires var c := CollectAll(frames, log[..|log| - 1]);
             Exact(frames, log[..|log| - 1], c) && (c.newest.Some? ==> c.newest.value <= log[|log| - 1].n)
    ensures var n, r := log[|log| - 1].n, CollectLast(frames, log);
            && (r.surfaced <==> Complete(frames, Pending(frames, log), n))
            && r.next == Collector(Some(n), if r.surfaced then {} else Indices(Pending(frames, log), n))
  {
    AddsToPending(frames, log);
    PendingWithin(frames, log);
    CompleteIsRange(frames, Pending(frames, log), log[|log| - 1].n);
  }

  /** The collector is exact, whatever is lost, reordered or repeated. */
  lemma {:induction false} CollectorExact(frames: seq<Bytes>, log: seq<Packet>)
    requires Within(frames, log)
    ensures Exact(frames, log, CollectAll(frames, log))
    decreases |log|
  {
    if log != [] {
      var prefix, last := log[..|log| - 1], log[|log| - 1];
      CollectorExact(frames, prefix);
      var c := CollectAll(frames, prefix);
      if c.newest.None? || c.newest.value <= last.n {
        AddsLast(frames, log);
        SinceSnoc(frames, log, last.n);
        NothingComplete(frames, last.n);
      } else {
        StaleKeepsExact(frames, log, c);
        assert CollectLast(frames, log) == Collected(c, false);
      }
    }
  }

  lemma StaleNotSurfaced(frames: seq<Bytes>, log: seq<Packet>)
    requires log != [] && Within(frames, log)
    requires var c := CollectAll(frames, log[..|log| - 1]);
             c.newest.Some? && log[|log| - 1].n < c.newest.value
    ensures !CollectLast(frames, log).surfaced && !NoneNewer(log, log[|log| - 1].n)
  {
    var prefix := log[..|log| - 1];
    CollectorSound(frames, prefix);
    var p :| p in prefix && p.n == CollectAll(frames, prefix).newest.value;
    assert p in log;
  }

  lemma FreshIsNewest(frames: seq<Bytes>, log: seq<Packet>)
    requires log != [] && Within(frames, log)
    requires var c := CollectAll(frames, log[..|log| - 1]);
             c.newest.Some? ==> c.newest.value <= log[|log| - 1].n
    ensures NoneNewer(log, log[|log| - 1].n)
  {
    CollectorSound(frames, log[..|log| - 1]);
    assert log == log[..|log| - 1] + [log[|log| - 1]];
  }

  /** Surfacing is exact on every network: the last delivered chunk surfaces its frame if and
      only if nothing newer came first and the chunks delivered since that frame last surfaced,
      this one included, are all of them. */
  lemma SurfacesExactly(frames: seq<Bytes>, log: seq<Packet>)
    requires log != [] && Within(frames, log)
    ensures var n := log[|log| - 1].n;
            CollectLast(frames, log).surfaced <==> NoneNewer(log, n) && Complete(frames, Pending(frames, log), n)
  {
    var c := CollectAll(frames, log[..|log| - 1]);
    if c.newest.None? || c.newest.value <= log[|log| - 1].n {
      CollectorExact(frames, log[..|log| - 1]);
      AddsLast(frames, log);
      FreshIsNewest(frames, log);
    } else {
      StaleNotSurfaced(frames, log);
    }
  }

  /** A frame that is complete with nothing newer delivered has surfaced, even with repeats. */
  lemma CompleteHasSurfaced(frames: seq<Bytes>, log: seq<Packet>, n: int)
    requires Within(frames, log) && 0 <= n < |frames|
    requires NoneNewer(log, n) && Complete(frames, log, n)
    ensures LastSurfaced(frames, log, n) > 0
  {
    assert 0 in Indices(log, n);
    CollectorSound(frames, log);
    CollectorExact(frames, log);
    assert CollectAll(frames, log).newest == Some(n);
    assert log[0..] == log;
  }

  lemma LastIsNew(log: seq<Packet>)
    requires log != [] && Distinct(log)
    ensures var last := log[|log| - 1];
            last.idx !in Indices(log[..|log| - 1], last.n)
  {
    var prefix, last := log[..|log| - 1], log[|log| - 1];
    forall p | p in prefix && p.n == last.n
      ensures p.idx != last.idx
    {
      var i :| 0 <= i < |prefix| && prefix[i] == p;
      assert log[i] == p;
    }
  }

  /** A frame that has surfaced was fully delivered before. */
  lemma SurfacedHadAll(frames: seq<Bytes>, log: seq<Packet>, n: int, idx: int)
    requires Within(frames, log) && LastSurfaced(frames, log, n) > 0
    requires 0 <= n < |frames| && 0 <= idx < |Slices(frames[n])|
    ensures idx in Indices(log, n)
  {
    var k := LastSurfaced(frames, log, n);
    LastSurfacedIsLast(frames, log, n);
    SurfacesOnlyComplete(frames, log[..k]);
    assert idx in Indices(log[..k], n);
  }

  /** Without repeats a frame surfaces once, so what is pending of it is all that came. */
  lemma SurfacesOnce(frames: seq<Bytes>, log: seq<Packet>)
    requires log != [] && Within(frames, log) && Distinct(log)
    ensures LastSurfaced(frames, log[..|log| - 1], log[|log| - 1].n) == 0
    ensures Pending(frames, log) == log
  {
    var prefix, last := log[..|log| - 1], log[|log| - 1];
    LastIsNew(log);
    if LastSurfaced(frames, prefix, last.n) > 0 {
      SurfacedHadAll(frames, prefix, last.n, last.idx);
    }
    assert log == prefix + [last];
  }

  /** Surfacing on a network that does not duplicate: the last delivered chunk surfaces its
      frame if and only if it completes it and nothing newer came first. */
  lemma SurfacesWhenComplete(frames: seq<Bytes>, log: seq<Packet>)
    requires log != [] && Within(frames, log) && Distinct(log)
    ensures var n := log[|log| - 1].n;
            CollectLast(frames, log).surfaced <==> NoneNewer(log, n) && Complete(frames, log, n)
  {
    SurfacesExactly(frames, log);
    SurfacesOnce(frames, log);
  }
}
