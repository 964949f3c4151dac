/** The simple specification of the receiver: the newest frame number seen and the set of
    its chunk indices collected so far. The reassembler, on the chunks of real frames,
    refines it. */
module FrameCollector {
  import opened Prelude
  import opened Wire
  import opened Chunking
  import opened Reassembly
  import opened SerialRefinement

  datatype Collector = Collector(newest: Option<nat>, got: set<nat>)

  const Nothing := Collector(None, {})

  datatype Collected = Collected(next: Collector, surfaced: bool)

  function Range(n: nat): (r: set<nat>)
    ensures forall i: nat :: i in r <==> i < n
    ensures |r| == n
  {
    if n == 0 then {} else Range(n - 1) + {n - 1}
  }

  function Collect(c: Collector, n: nat, idx: nat, total: nat): Collected {
    if c.newest.Some? && n < c.newest.value then Collected(c, false)
    else
      var got := (if c.newest == Some(n) then c.got else {}) + {idx};
      if got == Range(total) then Collected(Collector(Some(n), {}), true)
      else Collected(Collector(Some(n), got), false)
  }

  ghost predicate Sized(frames: seq<Bytes>) {
    forall f <- frames :: |f| <= MAX_PAYLOAD
  }

  /** The collected indices are a proper subset of the newest frame's. */
  ghost predicate Ok(frames: seq<Bytes>, c: Collector) {
    match c.newest
    case None => c.got == {}
    case Some(n) => n < |frames| && c.got < Range(|Slices(frames[n])|)
  }

  /** The slots of a message with these bodies when the chunks in `got` are present. */
  function SlotsOf(bodies: seq<Bytes>, got: set<nat>): (s: seq<Option<Bytes>>)
    ensures |s| == |bodies|
    ensures forall i :: 0 <= i < |s| ==> s[i] == if i in got then Some(bodies[i]) else None
  {
    seq(|bodies|, i requires 0 <= i < |bodies| => if i in got then Some(bodies[i]) else None)
  }

  function PartialOf(bodies: seq<Bytes>, got: set<nat>): Partial {
    Partial(SlotsOf(bodies, got), |got|, |bodies|)
  }

  /** The reassembler state that represents a collector. */
  function Concrete(frames: seq<Bytes>, c: Collector): State
    requires Ok(frames, c)
  {
    match c.newest
    case None => Fresh
    case Some(n) =>
      if c.got == {} then State(Some(n), map[])
      else
        State(Some(n), map[n := PartialOf(Slices(frames[n]), c.got)])
  }

  lemma SubsetCard(a: set<nat>, b: set<nat>)
    requires a <= b
    ensures |a| <= |b| && (|a| == |b| <==> a == b)
  {
    assert b == a + (b - a);
    assert |b| == |a| + |b - a|;
    assert b - a == {} ==> a == b;
  }

  lemma {:induction false} JoinSlices(slots: seq<Option<Bytes>>, parts: seq<Bytes>)
    requires |slots| == |parts| && forall i :: 0 <= i < |slots| ==> slots[i] == Some(parts[i])
    ensures Join(slots) == Concat(parts)
  {
    if slots != [] {
      JoinSlices(slots[1..], parts[1..]);
    }
  }

  lemma SlotsAdd(bodies: seq<Bytes>, got: set<nat>, i: nat)
    requires i < |bodies| && i !in got
    ensures SlotsOf(bodies, got)[i] == None
    ensures SlotsOf(bodies, got)[i := Some(bodies[i])] == SlotsOf(bodies, got + {i})
  {
  }

  lemma SlotsEmpty(bodies: seq<Bytes>)
    ensures EmptySlots(|bodies|) == SlotsOf(bodies, {})
  {
  }

  /** When every index is present the slots join to the whole message. */
  lemma SlotsFull(bodies: seq<Bytes>)
    ensures AllFilled(SlotsOf(bodies, Range(|bodies|)))
    ensures Join(SlotsOf(bodies, Range(|bodies|))) == Concat(bodies)
  {
    JoinSlices(SlotsOf(bodies, Range(|bodies|)), bodies);
  }

  /** The state holds exactly the chunks `got` of the message. */
  ghost predicate Holds(s: State, id: int, bodies: seq<Bytes>, got: set<nat>) {
    && (id in s.partials <==> got != {})
    && (got != {} ==> s.partials[id] == PartialOf(bodies, got))
  }

  lemma FillDuplicate(s: State, id: int, bodies: seq<Bytes>, got: set<nat>, i: nat)
    requires Holds(s, id, bodies, got) && i < |bodies| && i in got
    ensures Fill(s, id, i, |bodies|, bodies[i]) == Result(s, None)
  {
  }

  lemma FillMissing(s: State, id: int, bodies: seq<Bytes>, got: set<nat>, i: nat)
    requires Holds(s, id, bodies, got) && i < |bodies| && i !in got
    ensures |got + {i}| == |got| + 1
    ensures var slots := SlotsOf(bodies, got + {i});
            Fill(s, id, i, |bodies|, bodies[i]) ==
            if |got| + 1 < |bodies| || !AllFilled(slots)
            then Result(s.(partials := s.partials[id := PartialOf(bodies, got + {i})]), None)
            else Result(s.(partials := s.partials - {id}), Some(Join(slots)))
  {
    SlotsAdd(bodies, got, i);
    SlotsEmpty(bodies);
  }

  /** Filling a missing slot surfaces the whole message when it was the last one, and otherwise
      adds the index. */
  lemma FillNew(s: State, id: int, bodies: seq<Bytes>, got: set<nat>, i: nat)
    requires Holds(s, id, bodies, got) && i < |bodies| && i !in got && got <= Range(|bodies|)
    ensures Fill(s, id, i, |bodies|, bodies[i]) ==
            if got + {i} == Range(|bodies|)
            then Result(s.(partials := s.partials - {id}), Some(Concat(bodies)))
            else Result(s.(partials := s.partials[id := PartialOf(bodies, got + {i})]), None)
  {
    FillMissing(s, id, bodies, got, i);
    SubsetCard(got + {i}, Range(|bodies|));
    SlotsFull(bodies);
  }

  /** The chunk of frame n at index idx, as the sender numbers it. */
  function FrameArrival(frames: seq<Bytes>, n: nat, idx: nat): Arrival
    requires Sized(frames) && n < |frames| && idx < |Slices(frames[n])|
  {
    WireTotalExact(frames[n]);
    Arrival(n, idx, |Slices(frames[n])|, Slices(frames[n])[idx])
  }

  lemma ConcreteHolds(frames: seq<Bytes>, c: Collector)
    requires Ok(frames, c) && c.newest.Some?
    ensures Holds(Concrete(frames, c), c.newest.value, Slices(frames[c.newest.value]), c.got)
    ensures Concrete(frames, c).latestSeen == Some(c.newest.value)
    ensures Concrete(frames, c).partials - {c.newest.value} == map[]
  {
  }

  /** What the collector and the reassembler both do with an index of the newest frame. */
  ghost predicate StepsTogether(frames: seq<Bytes>, c: Collector, n: nat, r: Collected, result: Result)
    requires n < |frames|
  {
    && Ok(frames, r.next)
    && result == Result(Concrete(frames, r.next), if r.surfaced then Some(frames[n]) else None)
  }

  lemma FillKnown(frames: seq<Bytes>, c: Collector, n: nat, idx: nat)
    requires Ok(frames, c) && c.newest == Some(n) && idx < |Slices(frames[n])| && idx in c.got
    ensures StepsTogether(frames, c, n, Collect(c, n, idx, |Slices(frames[n])|),
                          Fill(Concrete(frames, c), n, idx, |Slices(frames[n])|, Slices(frames[n])[idx]))
  {
    ConcreteHolds(frames, c);
    FillDuplicate(Concrete(frames, c), n, Slices(frames[n]), c.got, idx);
    assert c.got + {idx} == c.got;
  }

  /** Storing and dropping the newest frame's entry, in the state that represents a collector. */
  lemma ConcreteEntry(frames: seq<Bytes>, c: Collector, got: set<nat>)
    requires Ok(frames, c) && c.newest.Some?
    ensures var s, n := Concrete(frames, c), c.newest.value;
            && s.(partials := s.partials - {n}) == Concrete(frames, Collector(Some(n), {}))
            && (got != {} && got < Range(|Slices(frames[n])|) ==>
                  s.(partials := s.partials[n := PartialOf(Slices(frames[n]), got)]) ==
                  Concrete(frames, Collector(Some(n), got)))
  {
    var s, n := Concrete(frames, c), c.newest.value;
    ConcreteHolds(frames, c);
    assert s.partials[n := PartialOf(Slices(frames[n]), got)] == map[n := PartialOf(Slices(frames[n]), got)];
  }

  lemma AddIndex(frames: seq<Bytes>, c: Collector, n: nat, idx: nat, result: Result)
    requires Ok(frames, c) && c.newest == Some(n) && idx < |Slices(frames[n])|
    requires var s, got := Concrete(frames, c), c.got + {idx};
             result == if got == Range(|Slices(frames[n])|)
                       then Result(s.(partials := s.partials - {n}), Some(frames[n]))
                       else Result(s.(partials := s.partials[n := PartialOf(Slices(frames[n]), got)]), None)
    ensures StepsTogether(frames, c, n, Collect(c, n, idx, |Slices(frames[n])|), result)
  {
    ConcreteEntry(frames, c, c.got + {idx});
    assert c.got + {idx} <= Range(|Slices(frames[n])|);
  }

  lemma FillUnknown(frames: seq<Bytes>, c: Collector, n: nat, idx: nat)
    requires Ok(frames, c) && c.newest == Some(n) && idx < |Slices(frames[n])| && idx !in c.got
    ensures StepsTogether(frames, c, n, Collect(c, n, idx, |Slices(frames[n])|),
                          Fill(Concrete(frames, c), n, idx, |Slices(frames[n])|, Slices(frames[n])[idx]))
  {
    ConcreteHolds(frames, c);
    FillNew(Concrete(frames, c), n, Slices(frames[n]), c.got, idx);
    ConcatSlices(frames[n]);
    AddIndex(frames, c, n, idx, Fill(Concrete(frames, c), n, idx, |Slices(frames[n])|, Slices(frames[n])[idx]));
  }

  /** The reassembler's filling step on one frame is adding an index to the set. */
  lemma FillStep(frames: seq<Bytes>, c: Collector, n: nat, idx: nat)
    requires Ok(frames, c) && c.newest == Some(n) && idx < |Slices(frames[n])|
    ensures StepsTogether(frames, c, n, Collect(c, n, idx, |Slices(frames[n])|),
                          Fill(Concrete(frames, c), n, idx, |Slices(frames[n])|, Slices(frames[n])[idx]))
  {
    if idx in c.got {
      FillKnown(frames, c, n, idx);
    } else {
      FillUnknown(frames, c, n, idx);
    }
  }

  /** Moving to a newer frame empties the collector and the reassembler alike. */
  lemma AdvanceConcrete(frames: seq<Bytes>, c: Collector, n: nat, idx: nat)
    requires Ok(frames, c) && n < |frames| && idx < |Slices(frames[n])|
    requires c.newest.None? || c.newest.value < n
    ensures Ok(frames, Collector(Some(n), {}))
    ensures Advance(Plain, Concrete(frames, c), n) == Concrete(frames, Collector(Some(n), {}))
  {
    assert idx in Range(|Slices(frames[n])|);
  }

  lemma AcceptCurrent(frames: seq<Bytes>, c: Collector, n: nat, idx: nat)
    requires Ok(frames, c) && c.newest == Some(n) && idx < |Slices(frames[n])|
    ensures StepsTogether(frames, c, n, Collect(c, n, idx, |Slices(frames[n])|),
                          Accept(Plain, Concrete(frames, c), n, idx, |Slices(frames[n])|, Slices(frames[n])[idx]))
  {
    FillStep(frames, c, n, idx);
    assert Advance(Plain, Concrete(frames, c), n) == Concrete(frames, c);
  }

  lemma AcceptNewer(frames: seq<Bytes>, c: Collector, n: nat, idx: nat)
    requires Ok(frames, c) && n < |frames| && idx < |Slices(frames[n])|
    requires c.newest.None? || c.newest.value < n
    ensures StepsTogether(frames, c, n, Collect(c, n, idx, |Slices(frames[n])|),
                          Accept(Plain, Concrete(frames, c), n, idx, |Slices(frames[n])|, Slices(frames[n])[idx]))
  {
    var moved := Collector(Some(n), {});
    AdvanceConcrete(frames, c, n, idx);
    FillStep(frames, moved, n, idx);
    assert Collect(c, n, idx, |Slices(frames[n])|) == Collect(moved, n, idx, |Slices(frames[n])|);
  }

  lemma AcceptStep(frames: seq<Bytes>, c: Collector, n: nat, idx: nat)
    requires Ok(frames, c) && n < |frames| && idx < |Slices(frames[n])|
    ensures StepsTogether(frames, c, n, Collect(c, n, idx, |Slices(frames[n])|),
                          Accept(Plain, Concrete(frames, c), n, idx, |Slices(frames[n])|, Slices(frames[n])[idx]))
  {
    if c.newest == Some(n) {
      AcceptCurrent(frames, c, n, idx);
    } else if c.newest.None? || c.newest.value < n {
      AcceptNewer(frames, c, n, idx);
    } else {
      assert Collect(c, n, idx, |Slices(frames[n])|) == Collected(c, false);
    }
  }

  /** One genuine chunk: the unbounded reassembler does what the collector does, and what it
      surfaces is the frame itself. */
  lemma CollectStep(frames: seq<Bytes>, c: Collector, n: nat, idx: nat)
    requires Sized(frames) && Ok(frames, c) && n < |frames| && idx < |Slices(frames[n])|
    ensures StepsTogether(frames, c, n, Collect(c, n, idx, |Slices(frames[n])|),
                          PlainStep(Concrete(frames, c), FrameArrival(frames, n, idx)))
  {
    AcceptStep(frames, c, n, idx);
  }
}
