/** The 32-bit reassembler simulates, step for step, one with unbounded ids and plain `<`. */
module SerialRefinement {
  import opened Prelude
  import opened Wire
  import opened Reassembly

  function Abs(n: int): nat {
    if n < 0 then -n else n
  }

  /** The numbers are equal, or their distance modulo the id space is positive and below half
      of it. */
  predicate Comparable(a: int, b: int) {
    a == b || 0 < Abs(a - b) % U32_SPAN < HALF
  }

  /** Serial-number order on wrapped ids agrees with the true order of the sequence numbers
      exactly when they are comparable. */
  lemma SerialExact(a: int, b: int)
    ensures (SerialOlder(a % U32_SPAN, b % U32_SPAN) <==> a < b) &&
            (SerialOlder(b % U32_SPAN, a % U32_SPAN) <==> b < a)
            <==>
            Comparable(a, b)
  {
    WrapDiff(a, b);
    WrapDiff(b, a);
    if a < b {
      OppositeMod(b - a);
    } else if b < a {
      OppositeMod(a - b);
    }
  }

  lemma WrapDiff(a: int, b: int)
    ensures (b % U32_SPAN - a % U32_SPAN) % U32_SPAN == (b - a) % U32_SPAN
    ensures a % U32_SPAN == b % U32_SPAN <==> (b - a) % U32_SPAN == 0
  {
    var qa, qb := a / U32_SPAN, b / U32_SPAN;
    assert b - a == (b % U32_SPAN - a % U32_SPAN) + U32_SPAN * (qb - qa);
  }

  lemma OppositeMod(d: int)
    ensures (-d) % U32_SPAN == if d % U32_SPAN == 0 then 0 else U32_SPAN - d % U32_SPAN
  {
    var q, r := d / U32_SPAN, d % U32_SPAN;
    if r == 0 {
      RemainderIs(-d, -q, 0);
    } else {
      RemainderIs(-d, -q - 1, U32_SPAN - r);
    }
  }

  lemma RemainderIs(d: int, q: int, r: int)
    requires d == U32_SPAN * q + r && 0 <= r < U32_SPAN
    ensures d % U32_SPAN == r
  {
    var p, s := d / U32_SPAN, d % U32_SPAN;
    assert d == U32_SPAN * p + s;
    assert U32_SPAN * (p - q) == r - s;
  }

  /** In particular, comparable numbers keep both their order and their difference. */
  lemma SerialAgrees(a: int, b: int)
    requires Comparable(a, b)
    ensures SerialOlder(a % U32_SPAN, b % U32_SPAN) <==> a < b
    ensures a % U32_SPAN == b % U32_SPAN <==> a == b
  {
    SerialExact(a, b);
    WrapDiff(a, b);
    if b < a {
      OppositeMod(a - b);
    }
  }

  /** Numbers less than half the id space apart are comparable. */
  lemma HalfWindow(a: int, b: int)
    requires Abs(a - b) < 0x8000_0000
    ensures Comparable(a, b)
  {
  }

  /** A chunk together with the unbounded sequence number of its message. Header
      fields and body are arbitrary. */
  datatype Arrival = Arrival(n: int, idx: U16, total: U16, body: Bytes)

  function WireOf(a: Arrival): Bytes {
    Encode(Chunk(a.n % U32_SPAN, a.idx, a.total, a.body))
  }

  predicate WellFormed(a: Arrival) {
    a.idx < a.total
  }

  /** The reassembler on unbounded ids. */
  function PlainStep(s: State, a: Arrival): Result {
    if !WellFormed(a) then Result(s, None) else Accept(Plain, s, a.n, a.idx, a.total, a.body)
  }

  /** The chunk's number is comparable with the newest one seen. */
  predicate InWindow(s: State, a: Arrival) {
    WellFormed(a) && s.latestSeen.Some? ==> Comparable(a.n, s.latestSeen.value)
  }

  /** The 32-bit state that represents an unbounded one. */
  function Wrap(s: State): State {
    if s.latestSeen.None? then Fresh
    else
      var n := s.latestSeen.value;
      State(Some(n % U32_SPAN), if n in s.partials then map[n % U32_SPAN := s.partials[n]] else map[])
  }

  /** With plain order the only partial is the newest message's. */
  lemma PlainSingle(s: State, a: Arrival)
    requires Single(s)
    ensures Single(PlainStep(s, a).state)
  {
  }

  lemma WrapStep(s: State, a: Arrival)
    requires Single(s) && InWindow(s, a)
    ensures OnChunk(Wrap(s), WireOf(a)) == Result(Wrap(PlainStep(s, a).state), PlainStep(s, a).out)
  {
    DecodeEncode(Chunk(a.n % U32_SPAN, a.idx, a.total, a.body));
    if WellFormed(a) && s.latestSeen.Some? {
      var newest := s.latestSeen.value;
      SerialAgrees(a.n, newest);
      SerialAgrees(newest, a.n);
      var id := a.n % U32_SPAN;
      if newest <= a.n {
        assert Advance(Serial, Wrap(s), id) == Wrap(Advance(Plain, s, a.n));
        assert Single(Advance(Plain, s, a.n));
        WrapFill(Advance(Plain, s, a.n), a);
      }
    } else if WellFormed(a) {
      assert Advance(Serial, Wrap(s), a.n % U32_SPAN) == Wrap(Advance(Plain, s, a.n));
      WrapFill(Advance(Plain, s, a.n), a);
    }
  }

  lemma WrapFill(s: State, a: Arrival)
    requires Single(s) && s.latestSeen == Some(a.n) && WellFormed(a)
    ensures var r := Fill(s, a.n, a.idx, a.total, a.body);
            Fill(Wrap(s), a.n % U32_SPAN, a.idx, a.total, a.body) == Result(Wrap(r.state), r.out)
  {
  }

  function PlainOutputs(s: State, run: seq<Arrival>): seq<Option<Bytes>>
    decreases |run|
  {
    if run == [] then []
    else [PlainStep(s, run[0]).out] + PlainOutputs(PlainStep(s, run[0]).state, run[1..])
  }

  function Outputs(s: State, bufs: seq<Bytes>): seq<Option<Bytes>>
    decreases |bufs|
  {
    if bufs == [] then [] else [OnChunk(s, bufs[0]).out] + Outputs(OnChunk(s, bufs[0]).state, bufs[1..])
  }

  ghost predicate AllInWindow(s: State, run: seq<Arrival>)
    decreases |run|
  {
    run == [] || (InWindow(s, run[0]) && AllInWindow(PlainStep(s, run[0]).state, run[1..]))
  }

  function WireRun(run: seq<Arrival>): (bufs: seq<Bytes>)
    ensures |bufs| == |run|
  {
    if run == [] then [] else [WireOf(run[0])] + WireRun(run[1..])
  }

  /** Serial-number refinement: across any number of id wraparounds, if every chunk's true number
      is comparable with the newest one seen, as it is within 2^31 - 1 of it, the 32-bit reassembler
      gives the same output on every chunk as the unbounded one. */
  lemma {:induction false} SerialRefines(s: State, run: seq<Arrival>)
    requires Single(s) && AllInWindow(s, run)
    ensures Outputs(Wrap(s), WireRun(run)) == PlainOutputs(s, run)
    decreases |run|
  {
    if run != [] {
      WrapStep(s, run[0]);
      PlainSingle(s, run[0]);
      SerialRefines(PlainStep(s, run[0]).state, run[1..]);
      assert WireRun(run)[1..] == WireRun(run[1..]);
    }
  }

  lemma OneSlot(body: Bytes)
    ensures var slots := EmptySlots(1)[0 := Some(body)];
            AllFilled(slots) && Join(slots) == body
  {
    var slots := EmptySlots(1)[0 := Some(body)];
    assert slots == [Some(body)] && slots[1..] == [];
    assert Join(slots) == body;
  }

  /** A whole message on a receiver that holds no other: the unbounded reassembler surfaces it
      unless it is stale. */
  lemma PlainWhole(newest: int, n: int, body: Bytes)
    ensures PlainStep(State(Some(newest), map[]), Arrival(n, 0, 1, body)).out == if n < newest then None else Some(body)
  {
    OneSlot(body);
  }

  /** The 32-bit one surfaces it unless its id is serially older. */
  lemma SerialWhole(newest: int, n: int, body: Bytes)
    ensures OnChunk(Wrap(State(Some(newest), map[])), WireOf(Arrival(n, 0, 1, body))).out ==
            if SerialOlder(n % U32_SPAN, newest % U32_SPAN) then None else Some(body)
  {
    DecodeEncode(Chunk(n % U32_SPAN, 0, 1, body));
    OneSlot(body);
  }

  /** Where the window ends, exactly: the 32-bit reassembler refuses a stale whole message if and
      only if its distance modulo the id space is positive and below half of it, and surfaces one
      that is not stale if and only if that distance is at most half. Elsewhere it differs from
      the unbounded one. */
  lemma WindowExact(newest: int, n: int, body: Bytes)
    ensures var s, a := State(Some(newest), map[]), Arrival(n, 0, 1, body);
            OnChunk(Wrap(s), WireOf(a)).out == PlainStep(s, a).out <==>
            if n < newest then 0 < (newest - n) % U32_SPAN < HALF else (n - newest) % U32_SPAN <= HALF
  {
    SerialWhole(newest, n, body);
    PlainWhole(newest, n, body);
    WrapDiff(n, newest);
    OppositeMod(n - newest);
  }

  /** In particular a complete message exactly 2^31 behind the newest one is surfaced by the 32-bit
      reassembler and refused by the unbounded one. */
  lemma WindowIsTight(newest: int, body: Bytes)
    ensures var s := State(Some(newest), map[]);
            var a := Arrival(newest - 0x8000_0000, 0, 1, body);
            && OnChunk(Wrap(s), WireOf(a)).out == Some(body)
            && PlainStep(s, a).out == None
  {
    SerialWhole(newest, newest - HALF, body);
    PlainWhole(newest, newest - HALF, body);
    WindowExact(newest, newest - HALF, body);
  }
}
