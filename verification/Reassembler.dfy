/** The reassembler object: a map of in-progress messages whose slots are filled in place. */
module ReassemblerObject {
  import opened Prelude
  import opened Wire
  import opened Reassembly

  class PartialMessage {
    var chunks: seq<Option<Bytes>>
    var received: int
    const total: nat

    ghost predicate Valid()
      reads this
    {
      |chunks| == total
    }

    ghost function View(): Partial
      reads this
      requires Valid()
    {
      Partial(chunks, received, total)
    }

    constructor (total: nat)
      ensures Valid() && View() == Partial(EmptySlots(total), 0, total)
    {
      this.chunks := EmptySlots(total);
      this.received := 0;
      this.total := total;
    }
  }

  /** The total length of the filled slots, as `reduce` computes it. */
  method TotalLength(chunks: seq<Option<Bytes>>) returns (n: nat)
    ensures n == |Join(chunks)|
  {
    n := 0;
    var i := 0;
    while i < |chunks|
      invariant 0 <= i <= |chunks|
      invariant n + |Join(chunks[i..])| == |Join(chunks)|
    {
      n := n + if chunks[i].Some? then |chunks[i].value| else 0;
      i := i + 1;
    }
  }

  lemma {:induction false} JoinSnoc(slots: seq<Option<Bytes>>, x: Option<Bytes>)
    ensures Join(slots + [x]) == Join(slots) + if x.Some? then x.value else []
  {
    if slots == [] {
      assert slots + [x] == [x] && [x][1..] == [];
    } else {
      JoinSnoc(slots[1..], x);
      assert (slots + [x])[1..] == slots[1..] + [x];
    }
  }

  lemma {:induction false} JoinPrefix(slots: seq<Option<Bytes>>, i: nat)
    requires i <= |slots|
    ensures |Join(slots[..i])| <= |Join(slots)|
    decreases |slots| - i
  {
    if i == |slots| {
      assert slots[..i] == slots;
    } else {
      JoinSnoc(slots[..i], slots[i]);
      assert slots[..i + 1] == slots[..i] + [slots[i]];
      JoinPrefix(slots, i + 1);
    }
  }

  /** Copies the slots one after another into one buffer; None if a slot is empty. */
  method Assemble(chunks: seq<Option<Bytes>>) returns (out: Option<Bytes>)
    ensures out == if AllFilled(chunks) then Some(Join(chunks)) else None
  {
    var totalLen := TotalLength(chunks);
    var buf := new Byte[totalLen];
    var offset := 0;
    var i := 0;
    while i < |chunks|
      invariant 0 <= i <= |chunks|
      invariant AllFilled(chunks[..i])
      invariant offset == |Join(chunks[..i])| <= totalLen
      invariant buf[..offset] == Join(chunks[..i])
    {
      if chunks[i].None? {
        return None;
      }
      var c := chunks[i].value;
      JoinSnoc(chunks[..i], chunks[i]);
      assert chunks[..i + 1] == chunks[..i] + [chunks[i]];
      JoinPrefix(chunks, i + 1);
      ghost var done := buf[..offset];
      forall j | 0 <= j < |c| {
        buf[offset + j] := c[j];
      }
      assert buf[..offset + |c|] == done + c;
      offset := offset + |c|;
      i := i + 1;
    }
    assert chunks[..i] == chunks;
    assert buf[..] == buf[..offset];
    out := Some(buf[..]);
  }

  /** Filling a slot, from the state in which the message has its entry. */
  lemma FillLookedUp(s: State, looked: State, id: int, idx: nat, total: nat, body: Bytes, p: Partial)
    requires idx < total && p.total == total
    requires p == if id in s.partials then s.partials[id] else Partial(EmptySlots(total), 0, total)
    requires looked == s.(partials := s.partials[id := p])
    ensures p.chunks[idx].Some? ==> Fill(s, id, idx, total, body) == Result(looked, None)
    ensures p.chunks[idx].None? ==>
              var q: Partial := Partial(p.chunks[idx := Some(body)], p.received + 1, p.total);
              Fill(s, id, idx, total, body) ==
              if q.received < q.total || !AllFilled(q.chunks)
              then Result(looked.(partials := looked.partials[id := q]), None)
              else Result(looked.(partials := looked.partials - {id}), Some(Join(q.chunks)))
  {
    assert p.chunks[idx].Some? ==> looked.partials == s.partials;
    assert looked.partials - {id} == s.partials - {id};
  }

  class Reassembler {
    var latestSeen: Option<int>
    var partials: map<int, PartialMessage>

    /** No two messages share a slot array, and the state satisfies the invariant. */
    ghost predicate Valid()
      reads this, partials.Values
    {
      && Shaped()
      && Inv(View())
    }

    ghost predicate Shaped()
      reads this, partials.Values
    {
      && (forall k <- partials :: partials[k].Valid())
      && (forall j <- partials, k <- partials :: partials[j] == partials[k] ==> j == k)
    }

    ghost function View(): State
      reads this, partials.Values
      requires Shaped()
    {
      State(latestSeen, map k | k in partials :: partials[k].View())
    }

    constructor ()
      ensures Valid() && View() == Fresh
    {
      latestSeen := None;
      partials := map[];
    }

    /** Deletes every partial strictly older than `msgId`. */
    method Evict(msgId: int)
      requires Shaped()
      modifies this`partials
      ensures Shaped() && partials.Values <= old(partials.Values)
      ensures View() ==
              State(latestSeen, map k | k in old(View()).partials && !SerialOlder(k, msgId) :: old(View()).partials[k])
    {
      var ids: set<int> := partials.Keys;
      while ids != {}
        invariant ids <= old(partials).Keys
        invariant partials == map k | k in old(partials) && (k in ids || !SerialOlder(k, msgId)) :: old(partials)[k]
        decreases |ids|
      {
        var id := Pick(ids);
        if SerialOlder(id, msgId) {
          partials := partials - {id};
        }
        ids := ids - {id};
      }
    }

    /** Feeds one buffer, arbitrary bytes included. */
    method Receive(buf: Bytes) returns (out: Option<Bytes>)
      requires Valid()
      modifies this, partials.Values
      ensures Valid()
      ensures fresh(partials.Values - old(partials.Values))
      ensures Result(View(), out) == OnChunk(old(View()), buf)
    {
      ghost var s := View();
      InvStep(s, buf);
      var header := Decode(buf);
      if header.None? {
        return None;
      }
      var Chunk(msgId, chunkIdx, totalChunks, payload) := header.value;
      if totalChunks == 0 || chunkIdx >= totalChunks {
        return None;
      }
      if latestSeen.Some? && SerialOlder(msgId, latestSeen.value) {
        return None;
      }
      if latestSeen.None? || SerialOlder(latestSeen.value, msgId) {
        latestSeen := Some(msgId);
        Evict(msgId);
      }
      assert View() == Advance(Serial, s, msgId);
      out := Store(msgId, chunkIdx, totalChunks, payload);
    }

    /** The message's entry, created on first sight; null when its total disagrees, in
        which case the whole message is dropped. */
    method Lookup(msgId: int, totalChunks: nat) returns (state: PartialMessage?)
      requires Shaped()
      modifies this`partials
      ensures Shaped() && fresh(partials.Values - old(partials.Values))
      ensures state == null <==> msgId in old(View()).partials && old(View()).partials[msgId].total != totalChunks
      ensures state == null ==> View() == old(View()).(partials := old(View()).partials - {msgId})
      ensures state != null ==>
                && msgId in partials && partials[msgId] == state
                && View() == old(View()).(partials := old(View()).partials[msgId := state.View()])
                && state.View() ==
                   if msgId in old(View()).partials then old(View()).partials[msgId]
                   else Partial(EmptySlots(totalChunks), 0, totalChunks)
    {
      if msgId !in partials {
        state := new PartialMessage(totalChunks);
        partials := partials[msgId := state];
      } else if partials[msgId].total != totalChunks {
        partials := partials - {msgId};
        state := null;
      } else {
        state := partials[msgId];
      }
    }

    method Delete(msgId: int)
      requires Shaped()
      modifies this`partials
      ensures Shaped() && partials.Values <= old(partials.Values)
      ensures View() == old(View()).(partials := old(View()).partials - {msgId})
    {
      partials := partials - {msgId};
    }

    /** Fills one slot of a stored message in place. */
    method Put(msgId: int, chunkIdx: nat, payload: Bytes)
      requires Shaped() && msgId in partials && chunkIdx < partials[msgId].total
      modifies partials[msgId]
      ensures Shaped()
      ensures var p := old(View()).partials[msgId];
              View() == old(View()).(partials := old(View()).partials[msgId :=
                Partial(p.chunks[chunkIdx := Some(payload)], p.received + 1, p.total)])
    {
      ghost var s := View();
      var state := partials[msgId];
      state.chunks := state.chunks[chunkIdx := Some(payload)];
      state.received := state.received + 1;
      assert forall k <- partials :: k != msgId ==> partials[k].View() == s.partials[k];
    }

    /** Surfaces and forgets the message once its count reaches its total. */
    method Finish(msgId: int) returns (out: Option<Bytes>)
      requires Shaped() && msgId in partials
      modifies this`partials
      ensures Shaped() && partials.Values <= old(partials.Values)
      ensures var p := old(View()).partials[msgId];
              if p.received < p.total || !AllFilled(p.chunks) then View() == old(View()) && out == None
              else View() == old(View()).(partials := old(View()).partials - {msgId}) && out == Some(Join(p.chunks))
    {
      var state := partials[msgId];
      if state.received < state.total {
        return None;
      }
      out := Assemble(state.chunks);
      if out.Some? {
        Delete(msgId);
      }
    }

    /** Fills an empty slot of a stored message, and surfaces the message if that completes it. */
    method Add(msgId: int, chunkIdx: nat, payload: Bytes) returns (out: Option<Bytes>)
      requires Shaped() && msgId in partials && chunkIdx < partials[msgId].total
      modifies this`partials, partials[msgId]
      ensures Shaped() && partials.Values <= old(partials.Values)
      ensures var s := old(View());
              var p := s.partials[msgId];
              var q: Partial := Partial(p.chunks[chunkIdx := Some(payload)], p.received + 1, p.total);
              Result(View(), out) ==
              if q.received < q.total || !AllFilled(q.chunks) then Result(s.(partials := s.partials[msgId := q]), None)
              else Result(s.(partials := s.partials - {msgId}), Some(Join(q.chunks)))
    {
      ghost var s := View();
      Put(msgId, chunkIdx, payload);
      assert View().partials == s.partials[msgId := View().partials[msgId]];
      out := Finish(msgId);
      assert out.Some? ==> View().partials == s.partials - {msgId};
    }

    /** The second half of `onChunk`: look the message up, fill the slot, assemble. */
    method Store(msgId: int, chunkIdx: nat, totalChunks: nat, payload: Bytes) returns (out: Option<Bytes>)
      requires Shaped() && chunkIdx < totalChunks
      modifies this`partials, partials.Values
      ensures Shaped()
      ensures fresh(partials.Values - old(partials.Values))
      ensures Result(View(), out) == Fill(old(View()), msgId, chunkIdx, totalChunks, payload)
    {
      ghost var s := View();
      var state := Lookup(msgId, totalChunks);
      if state == null {
        return None;
      }
      FillLookedUp(s, View(), msgId, chunkIdx, totalChunks, payload, state.View());
      if state.chunks[chunkIdx].Some? {
        return None;
      }
      out := Add(msgId, chunkIdx, payload);
    }
  }
}
