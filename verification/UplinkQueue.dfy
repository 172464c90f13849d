/** The host's send queue as an object: the methods that run under its lock. */
module UplinkQueue {
  import opened Prelude
  import opened UplinkSpec

  lemma PassEnds(q: seq<Item>, bytes: int, total: nat)
    requires q == [] || bytes + total <= MAX_BYTES
    ensures OnePass(q, bytes, total) == Split(q, [])
  {
  }

  /** The entries of a queue are those of the items. */
  ghost predicate Shows(queue: seq<Entry>, items: seq<Item>) {
    |queue| == |items| && forall i :: 0 <= i < |queue| ==> queue[i] == items[i].entry
  }

  /** The bytes handed to the sender are those of the items. */
  ghost predicate Carries(batch: seq<seq<Byte>>, items: seq<Item>) {
    |batch| == |items| && forall i :: 0 <= i < |batch| ==> batch[i] == items[i].entry.data
  }

  lemma ShowsAt(queue: seq<Entry>, kept: seq<Item>, rest: seq<Item>)
    requires Shows(queue, kept + rest) && rest != []
    ensures |kept| < |queue| && queue[|kept|] == rest[0].entry
    ensures kept + rest == kept + [rest[0]] + rest[1..]
    ensures Shows(queue[..|kept|] + queue[|kept| + 1..], kept + rest[1..])
  {
    assert (kept + rest)[|kept|] == rest[0];
  }

  lemma ShowsPut(queue: seq<Entry>, items: seq<Item>, x: Item)
    requires Shows(queue, items)
    ensures Shows([x.entry] + queue, [x] + items) && Shows(queue + [x.entry], items + [x])
  {
  }

  lemma TakesFirst(queue: seq<Entry>, batch: seq<seq<Byte>>, taken: seq<Item>, rest: seq<Item>)
    requires Shows(queue, rest) && Carries(batch, taken) && rest != []
    ensures queue != [] && queue[0] == rest[0].entry
    ensures Shows(queue[1..], rest[1..]) && Carries(batch + [queue[0].data], taken + [rest[0]])
    ensures Total(taken + [rest[0]]) == Total(taken) + |queue[0].data|
    ensures taken + rest == taken + [rest[0]] + rest[1..]
  {
    hide Total;
    TotalAppend(taken, [rest[0]]);
    TotalOne(rest[0]);
  }

  lemma TakenSplits(s: State, taken: seq<Item>, rest: seq<Item>)
    requires taken + rest == s.items && |taken| == BatchSize(s)
    ensures Taken(s) == s.(batch := taken, items := rest, bytes := s.bytes - Total(taken))
  {
    assert s.items[..|taken|] == taken && s.items[|taken|..] == rest;
  }

  /** How far the pass has come. */
  ghost predicate Reached(all: seq<Item>, bytes: int, total: nat, kept: seq<Item>, dropped: seq<Item>,
                          rest: seq<Item>) {
    var p := OnePass(rest, bytes - Total(dropped), total);
    OnePass(all, bytes, total) == Split(kept + p.kept, dropped + p.dropped)
  }

  lemma ReachedFirst(all: seq<Item>, bytes: int, total: nat)
    ensures Reached(all, bytes, total, [], [], all)
  {
    hide OnePass;
    EmptyTotal();
    var p := OnePass(all, bytes, total);
    assert [] + p.kept == p.kept && [] + p.dropped == p.dropped;
  }

  lemma ReachedNext(all: seq<Item>, bytes: int, total: nat, kept: seq<Item>, dropped: seq<Item>, rest: seq<Item>)
    requires Reached(all, bytes, total, kept, dropped, rest)
    requires rest != [] && bytes - Total(dropped) + total > MAX_BYTES
    ensures rest[0].entry.noDrop ==> Reached(all, bytes, total, kept + [rest[0]], dropped, rest[1..])
    ensures !rest[0].entry.noDrop ==> Reached(all, bytes, total, kept, dropped + [rest[0]], rest[1..])
    ensures Total(dropped + [rest[0]]) == Total(dropped) + |rest[0].entry.data|
  {
    hide Total, OnePass;
    var now := bytes - Total(dropped);
    PassStep(rest, now, total);
    TotalAppend(dropped, [rest[0]]);
    TotalOne(rest[0]);
    var p := OnePass(rest[1..], if rest[0].entry.noDrop then now else now - |rest[0].entry.data|, total);
    assert kept + ([rest[0]] + p.kept) == kept + [rest[0]] + p.kept;
    assert dropped + ([rest[0]] + p.dropped) == dropped + [rest[0]] + p.dropped;
  }

  lemma ReachedLast(all: seq<Item>, bytes: int, total: nat, kept: seq<Item>, dropped: seq<Item>, rest: seq<Item>)
    requires Reached(all, bytes, total, kept, dropped, rest)
    requires rest == [] || bytes - Total(dropped) + total <= MAX_BYTES
    ensures OnePass(all, bytes, total) == Split(kept + rest, dropped)
  {
    hide Total;
    PassEnds(rest, bytes - Total(dropped), total);
    assert dropped + [] == dropped;
  }

  /** When nothing has to go, nothing goes. */
  lemma RoomMade(s: State, total: nat, noDrop: bool)
    ensures Room(s, total, noDrop)
         == if !noDrop && s.bytes + total > MAX_BYTES then OnePass(s.items, s.bytes, total) else Split(s.items, [])
  {
  }

  class SendQueue {
    var running: bool
    var queue: seq<Entry>
    var bytes: int
    var drops: nat
    /** The same state with its history. */
    ghost var state: State

    ghost predicate Valid()
      reads this
    {
      running == state.running && bytes == state.bytes && drops == state.drops && Shows(queue, state.items)
    }

    constructor ()
      ensures Valid() && state == Initial() && !running
    {
      running, queue, bytes, drops := false, [], 0, 0;
      state := Initial();
    }

    /** Drop what can be dropped, oldest first, in one pass, until the packet fits. */
    method MakeRoom(total: nat) returns (ghost r: Split)
      requires Valid()
      modifies this
      ensures running == old(running) && state == old(state)
      ensures r == OnePass(old(state.items), old(bytes), total)
      ensures Shows(queue, r.kept)
      ensures bytes == old(bytes) - Total(r.dropped) && drops == old(drops) + |r.dropped|
    {
      hide Total, OnePass, Shows, Reached;
      ghost var rest := state.items;
      ghost var kept: seq<Item>, dropped: seq<Item> := [], [];
      var it := 0;
      EmptyTotal();
      ReachedFirst(state.items, bytes, total);
      assert kept + rest == state.items;
      SameLength(queue, kept + rest);
      while it < |queue| && bytes + total > MAX_BYTES
        invariant 0 <= it == |kept| && |queue| == |kept + rest| && Shows(queue, kept + rest)
        invariant running == old(running) && state == old(state)
        invariant bytes == old(bytes) - Total(dropped) && drops == old(drops) + |dropped|
        invariant Reached(old(state.items), old(bytes), total, kept, dropped, rest)
        decreases |rest|
      {
        ShowsAt(queue, kept, rest);
        ReachedNext(old(state.items), old(bytes), total, kept, dropped, rest);
        if !queue[it].noDrop {
          bytes := bytes - |queue[it].data|;
          queue := queue[..it] + queue[it + 1..];
          drops := drops + 1;
          dropped := dropped + [rest[0]];
        } else {
          it := it + 1;
          kept := kept + [rest[0]];
        }
        rest := rest[1..];
      }
      ReachedLast(old(state.items), old(bytes), total, kept, dropped, rest);
      r := Split(kept + rest, dropped);
    }

    method EnqueueCentral(hdr: seq<Byte>, data: seq<Byte>, noDrop: bool)
      requires Valid()
      modifies this
      ensures Valid()
      ensures state == if old(running) then Next(old(state), Enqueue(hdr, data, noDrop)) else old(state)
    {
      if !running {
        return;
      }
      hide Total, OnePass, Shows, Room;
      var total := |hdr| + |data|;
      ghost var r := Split(state.items, []);
      EmptyTotal();
      if !noDrop && bytes + total > MAX_BYTES {
        r := MakeRoom(total);
      }
      RoomMade(old(state), total, noDrop);
      assert r == Room(old(state), total, noDrop);
      var pkt := hdr + data;
      ShowsPut(queue, r.kept, Newcomer(old(state), hdr, data, noDrop));
      var heartbeat := IsHeartbeat(data);
      if heartbeat {
        queue := [Entry(pkt, noDrop)] + queue;
      } else {
        queue := queue + [Entry(pkt, noDrop)];
      }
      bytes := bytes + total;
      state := Enqueued(old(state), hdr, data, noDrop);
    }

    /** Up to 64 packets, oldest first. */
    method Take() returns (batch: seq<seq<Byte>>)
      requires Valid() && state.batch == []
      modifies this
      ensures Valid() && state == Next(old(state), TakeBatch)
      ensures Carries(batch, state.batch) && |batch| <= BATCH
    {
      hide Total, Shows, Carries, Taken;
      batch := [];
      ghost var taken: seq<Item>, rest := [], state.items;
      var n := 0;
      EmptyTotal();
      SameLength(queue, rest);
      NothingCarried();
      while queue != [] && n < BATCH
        invariant 0 <= n == |taken| == |batch| <= BATCH && taken + rest == old(state.items)
        invariant |queue| == |rest| && Shows(queue, rest) && Carries(batch, taken)
        invariant bytes == old(bytes) - Total(taken)
        invariant running == old(running) && drops == old(drops) && state == old(state)
        decreases |queue|
      {
        TakesFirst(queue, batch, taken, rest);
        bytes := bytes - |queue[0].data|;
        batch := batch + [queue[0].data];
        queue := queue[1..];
        n := n + 1;
        taken, rest := taken + [rest[0]], rest[1..];
      }
      TakenSplits(old(state), taken, rest);
      state := Taken(state);
    }

    /** One packet of the batch has gone out, or the link has failed with the rest of the batch. */
    method Sent(ok: bool)
      requires Valid() && state.batch != []
      modifies this
      ensures Valid() && state == Next(old(state), if ok then SendOk else SendFailed)
    {
      if !ok {
        running := false;
      }
      state := Next(state, if ok then SendOk else SendFailed);
    }

    /** The sender is told to stop. */
    method Stop()
      requires Valid()
      modifies this
      ensures Valid() && state == Next(old(state), RequestStop)
    {
      running := false;
      state := Next(state, RequestStop);
    }

    /** Once the sender has ended, the queue is emptied; starting empties it again and lets packets in. */
    method Reset(start: bool)
      requires Valid() && state.batch == []
      modifies this
      ensures Valid() && state == Next(old(state), if start then Start else Clear)
    {
      bytes, queue := 0, [];
      if start {
        running := true;
      }
      state := Next(state, if start then Start else Clear);
    }
  }

  lemma SameLength(queue: seq<Entry>, items: seq<Item>)
    requires Shows(queue, items)
    ensures |queue| == |items|
  {
  }

  lemma NothingCarried()
    ensures Carries([], [])
  {
  }

  lemma EmptyTotal()
    ensures Total([]) == 0
  {
  }

  /** The packets of a batch go out in turn until one cannot be sent. */
  function BatchSent(s: State, results: seq<bool>): State
    decreases |results|
  {
    if s.batch == [] || results == [] then s
    else if results[0] then BatchSent(Next(s, SendOk), results[1..])
    else Next(s, SendFailed)
  }

  /** Sending a batch: everything before the first failure is sent, everything from it on is lost with the link. */
  lemma {:induction false} BatchSentSplits(s: State, results: seq<bool>, k: nat)
    requires k <= |s.batch| && k <= |results| && |s.batch| <= |results|
    requires (forall i :: 0 <= i < k ==> results[i]) && (k < |s.batch| ==> !results[k])
    ensures var t := BatchSent(s, results);
            && t.sent == s.sent + s.batch[..k] && t.gone == s.gone + s.batch[k..] && t.batch == []
            && t.running == (s.running && k == |s.batch|)
            && t.items == s.items && t.dropped == s.dropped && t.accepted == s.accepted
    decreases k
  {
    if k > 0 {
      BatchSentSplits(Next(s, SendOk), results[1..], k - 1);
      assert s.batch == [s.batch[0]] + s.batch[1..];
    }
  }

  method SendAll(q: SendQueue, results: seq<bool>)
    requires q.Valid() && q.state.batch == [] && |results| == BATCH
    modifies q
    ensures q.Valid() && q.state == BatchSent(Next(old(q.state), TakeBatch), results)
  {
    hide Total;
    var batch := q.Take();
    ghost var taken := q.state;
    var i := 0;
    assert results[0..] == results;
    while i < |batch|
      invariant 0 <= i <= |batch| && q.Valid()
      invariant |q.state.batch| == |batch| - i
      invariant BatchSent(q.state, results[i..]) == BatchSent(taken, results)
    {
      ghost var before := q.state;
      assert results[i..][1..] == results[i + 1..];
      q.Sent(results[i]);
      if !results[i] {
        return;
      }
      i := i + 1;
    }
  }
}
