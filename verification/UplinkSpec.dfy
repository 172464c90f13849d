/**
 * The send queue between a host and the central server: what one locked step does to it, and what
 * holds after any number of steps.
 */
module UplinkSpec {
  import opened Prelude

  datatype Entry = Entry(data: seq<Byte>, noDrop: bool)

  /** A queued entry together with the number of packets accepted before it and whether it is a heartbeat. */
  datatype Item = Item(entry: Entry, heartbeat: bool, id: nat)

  const MAX_BYTES: nat := 4 * 1024 * 1024
  const BATCH: nat := 64
  const HEARTBEAT: Byte := 0x14

  function Total(q: seq<Item>): (n: nat) {
    if q == [] then 0 else |q[0].entry.data| + Total(q[1..])
  }

  lemma {:induction false} TotalAppend(p: seq<Item>, q: seq<Item>)
    ensures Total(p + q) == Total(p) + Total(q)
    decreases p
  {
    if p == [] {
      assert p + q == q;
    } else {
      assert (p + q)[1..] == p[1..] + q;
      TotalAppend(p[1..], q);
    }
  }

  // ------------------------------------------------------------ overflow

  datatype Split = Split(kept: seq<Item>, dropped: seq<Item>)

  predicate AllKept(q: seq<Item>) {
    forall i :: 0 <= i < |q| ==> q[i].entry.noDrop
  }

  /** One pass from the oldest entry on: droppable entries go until the packet fits. */
  function OnePass(q: seq<Item>, bytes: int, total: nat): Split
    decreases q
  {
    if q == [] || bytes + total <= MAX_BYTES then Split(q, [])
    else if q[0].entry.noDrop then
      var r := OnePass(q[1..], bytes, total);
      Split([q[0]] + r.kept, r.dropped)
    else
      var r := OnePass(q[1..], bytes - |q[0].entry.data|, total);
      Split(r.kept, [q[0]] + r.dropped)
  }

  /** The oldest droppable entry. */
  function Oldest(q: seq<Item>): (i: nat)
    ensures i <= |q| && AllKept(q[..i]) && (i < |q| ==> !q[i].entry.noDrop)
  {
    if q == [] || !q[0].entry.noDrop then 0
    else
      var i := Oldest(q[1..]);
      assert q[..i + 1] == [q[0]] + q[1..][..i];
      i + 1
  }

  /** The reference: as long as the packet does not fit, look for the oldest droppable entry again. */
  function Repeatedly(q: seq<Item>, total: nat): Split
    decreases |q|
  {
    var i := Oldest(q);
    if Total(q) + total <= MAX_BYTES || i == |q| then Split(q, [])
    else
      var r := Repeatedly(q[..i] + q[i + 1..], total);
      Split(r.kept, [q[i]] + r.dropped)
  }

  lemma {:induction false} OldestAfterKept(k: seq<Item>, q: seq<Item>)
    requires AllKept(k)
    ensures Oldest(k + q) == |k| + Oldest(q)
    decreases k
  {
    if k == [] {
      assert k + q == q;
    } else {
      assert (k + q)[1..] == k[1..] + q;
      OldestAfterKept(k[1..], q);
    }
  }

  /** The pass may forget the entries it has kept: looking again from the front finds the same ones. */
  lemma {:induction false} PassFromHere(k: seq<Item>, q: seq<Item>, total: nat)
    requires AllKept(k)
    ensures Repeatedly(k + q, total) ==
      var r := OnePass(q, Total(k + q), total);
      Split(k + r.kept, r.dropped)
    decreases q
  {
    hide Total, Oldest, Repeatedly, OnePass;
    OldestAfterKept(k, q);
    var bytes := Total(k + q);
    PassStep(q, bytes, total);
    RepeatStep(k + q, total);
    if q == [] || bytes + total <= MAX_BYTES {
      NothingOldest();
    } else if q[0].entry.noDrop {
      var k' := k + [q[0]];
      assert k' + q[1..] == k + q;
      PassFromHere(k', q[1..], total);
      var r := OnePass(q[1..], bytes, total);
      assert k + ([q[0]] + r.kept) == k' + r.kept;
    } else {
      FirstIsOldest(q);
      WithoutFirst(k, q);
      PassFromHere(k, q[1..], total);
    }
  }

  lemma PassStep(q: seq<Item>, bytes: int, total: nat)
    ensures OnePass(q, bytes, total) ==
      if q == [] || bytes + total <= MAX_BYTES then Split(q, [])
      else if q[0].entry.noDrop then
        Split([q[0]] + OnePass(q[1..], bytes, total).kept, OnePass(q[1..], bytes, total).dropped)
      else
        var rest := bytes - |q[0].entry.data|;
        Split(OnePass(q[1..], rest, total).kept, [q[0]] + OnePass(q[1..], rest, total).dropped)
  {
  }

  lemma RepeatStep(q: seq<Item>, total: nat)
    ensures Repeatedly(q, total) ==
      var i := Oldest(q);
      if Total(q) + total <= MAX_BYTES || i == |q| then Split(q, [])
      else
        var rest := q[..i] + q[i + 1..];
        Split(Repeatedly(rest, total).kept, [q[i]] + Repeatedly(rest, total).dropped)
  {
  }

  lemma {:induction false} WithoutFirst(k: seq<Item>, q: seq<Item>)
    requires q != []
    ensures (k + q)[..|k|] + (k + q)[|k| + 1..] == k + q[1..] && (k + q)[|k|] == q[0]
    ensures Total(k + q[1..]) == Total(k + q) - |q[0].entry.data|
  {
    hide Total;
    TotalAppend(k, q);
    TotalAppend(k, q[1..]);
    assert q == [q[0]] + q[1..];
    TotalAppend([q[0]], q[1..]);
    TotalOne(q[0]);
  }

  lemma NothingOldest()
    ensures Oldest([]) == 0
  {
  }

  lemma FirstIsOldest(q: seq<Item>)
    requires q != [] && !q[0].entry.noDrop
    ensures Oldest(q) == 0
  {
  }

  lemma TotalOne(x: Item)
    ensures Total([x]) == |x.entry.data|
  {
  }

  /** The single pass leaves what repeated removal of the oldest droppable entry leaves. */
  lemma OnePassIsRepeated(q: seq<Item>, total: nat)
    ensures OnePass(q, Total(q), total) == Repeatedly(q, total)
  {
    PassFromHere([], q, total);
    assert [] + q == q;
    var r := OnePass(q, Total(q), total);
    assert [] + r.kept == r.kept;
  }

  /** A queue divided into what stays and what goes, everything that goes being droppable. */
  ghost predicate Divides(q: seq<Item>, r: Split) {
    && multiset(q) == multiset(r.kept) + multiset(r.dropped)
    && Total(q) == Total(r.kept) + Total(r.dropped)
    && (forall x :: x in r.dropped ==> !x.entry.noDrop)
  }

  lemma DividesPut(x: Item, q: seq<Item>, r: Split)
    requires Divides(q, r)
    ensures Divides([x] + q, Split([x] + r.kept, r.dropped))
    ensures !x.entry.noDrop ==> Divides([x] + q, Split(r.kept, [x] + r.dropped))
  {
    hide Total;
    TotalAppend([x], q);
    TotalAppend([x], r.kept);
    TotalAppend([x], r.dropped);
  }

  lemma DividesNothing(q: seq<Item>)
    ensures Divides(q, Split(q, []))
  {
  }

  lemma {:induction false} PassDivides(q: seq<Item>, bytes: int, total: nat)
    ensures Divides(q, OnePass(q, bytes, total))
    decreases q
  {
    hide Divides;
    if q == [] || bytes + total <= MAX_BYTES {
      DividesNothing(q);
    } else {
      assert q == [q[0]] + q[1..];
      var rest := if q[0].entry.noDrop then bytes else bytes - |q[0].entry.data|;
      PassDivides(q[1..], rest, total);
      DividesPut(q[0], q[1..], OnePass(q[1..], rest, total));
    }
  }

  /** The pass frees enough, or everything it leaves is exempt; it drops nothing when nothing needs to go. */
  lemma {:induction false} PassFrees(q: seq<Item>, bytes: int, total: nat)
    ensures var r := OnePass(q, bytes, total);
            && (bytes - Total(r.dropped) + total <= MAX_BYTES || AllKept(r.kept))
            && (bytes + total <= MAX_BYTES ==> r.dropped == [])
    decreases q
  {
    if q == [] || bytes + total <= MAX_BYTES {
    } else if q[0].entry.noDrop {
      PassFrees(q[1..], bytes, total);
    } else {
      var rest := bytes - |q[0].entry.data|;
      PassFrees(q[1..], rest, total);
      assert OnePass(q, bytes, total).dropped[1..] == OnePass(q[1..], rest, total).dropped;
    }
  }

  /** Non-heartbeats stand in the order they were accepted. */
  predicate InOrder(q: seq<Item>) {
    forall i, j :: 0 <= i < j < |q| && !q[i].heartbeat && !q[j].heartbeat ==> q[i].id < q[j].id
  }

  lemma {:induction false} PassKeepsOrder(p: seq<Item>, q: seq<Item>, bytes: int, total: nat)
    requires InOrder(p + q)
    ensures InOrder(p + OnePass(q, bytes, total).kept)
    decreases q
  {
    if q == [] || bytes + total <= MAX_BYTES {
    } else if q[0].entry.noDrop {
      assert p + [q[0]] + q[1..] == p + q;
      PassKeepsOrder(p + [q[0]], q[1..], bytes, total);
      var r := OnePass(q[1..], bytes, total);
      assert p + [q[0]] + r.kept == p + ([q[0]] + r.kept);
    } else {
      assert InOrder(p + q[1..]) by {
        forall i, j | 0 <= i < j < |p + q[1..]| && !(p + q[1..])[i].heartbeat && !(p + q[1..])[j].heartbeat
          ensures (p + q[1..])[i].id < (p + q[1..])[j].id
        {
          var i', j' := if i < |p| then i else i + 1, if j < |p| then j else j + 1;
          assert (p + q)[i'] == (p + q[1..])[i] && (p + q)[j'] == (p + q[1..])[j];
        }
      }
      PassKeepsOrder(p, q[1..], bytes - |q[0].entry.data|, total);
    }
  }

  // --------------------------------------------------------------- steps

  /**
   * running, items, bytes and drops are what the object holds; the rest is history: every packet
   * accepted, in order, and where each has gone.
   */
  datatype State = State(running: bool, items: seq<Item>, bytes: int, drops: nat, accepted: seq<Item>,
                         batch: seq<Item>, sent: seq<Item>, dropped: seq<Item>, gone: seq<Item>)

  function Initial(): State {
    State(false, [], 0, 0, [], [], [], [], [])
  }

  datatype Event =
    | Enqueue(hdr: seq<Byte>, data: seq<Byte>, noDrop: bool)
    | TakeBatch
    | SendOk
    | SendFailed
    | RequestStop
    | Clear
    | Start

  predicate IsHeartbeat(data: seq<Byte>) {
    |data| >= 9 && data[4] == HEARTBEAT
  }

  function Newcomer(s: State, hdr: seq<Byte>, data: seq<Byte>, noDrop: bool): Item {
    Item(Entry(hdr + data, noDrop), IsHeartbeat(data), |s.accepted|)
  }

  function Room(s: State, total: nat, noDrop: bool): Split {
    if noDrop then Split(s.items, []) else OnePass(s.items, s.bytes, total)
  }

  /** Heartbeats to the front, the rest to the back, of what was left. */
  function Admitted(s: State, x: Item, r: Split): State {
    s.(items := if x.heartbeat then [x] + r.kept else r.kept + [x],
       bytes := s.bytes - Total(r.dropped) + |x.entry.data|,
       drops := s.drops + |r.dropped|,
       dropped := s.dropped + r.dropped,
       accepted := s.accepted + [x])
  }

  /** Make room unless the packet is exempt, then put it in. */
  function Enqueued(s: State, hdr: seq<Byte>, data: seq<Byte>, noDrop: bool): State {
    Admitted(s, Newcomer(s, hdr, data, noDrop), Room(s, |hdr| + |data|, noDrop))
  }

  function BatchSize(s: State): nat {
    if |s.items| < BATCH then |s.items| else BATCH
  }

  function Taken(s: State): State {
    var n := BatchSize(s);
    s.(batch := s.items[..n], items := s.items[n..], bytes := s.bytes - Total(s.items[..n]))
  }

  /** An event that cannot happen in a state leaves it alone. */
  function Next(s: State, e: Event): State {
    match e
    case Enqueue(hdr, data, noDrop) => Enqueued(s, hdr, data, noDrop)
    case TakeBatch => if s.batch == [] then Taken(s) else s
    case SendOk => if s.batch == [] then s else s.(batch := s.batch[1..], sent := s.sent + [s.batch[0]])
    case SendFailed => if s.batch == [] then s else s.(running := false, batch := [], gone := s.gone + s.batch)
    case RequestStop => s.(running := false)
    case Clear => if s.batch != [] then s else s.(items := [], bytes := 0, gone := s.gone + s.items)
    case Start => if s.batch != [] then s else s.(running := true, items := [], bytes := 0, gone := s.gone + s.items)
  }

  function After(es: seq<Event>): State {
    if es == [] then Initial() else Next(After(es[..|es| - 1]), es[|es| - 1])
  }

  // ---------------------------------------------------------- invariants

  /** Every packet accepted is in exactly one place; accepted packets are all different, so none is doubled. */
  ghost predicate Conserved(s: State) {
    && (forall i :: 0 <= i < |s.accepted| ==> s.accepted[i].id == i)
    && multiset(s.accepted)
       == multiset(s.items) + multiset(s.batch) + multiset(s.sent) + multiset(s.dropped) + multiset(s.gone)
  }

  ghost predicate Counted(s: State) {
    && s.bytes == Total(s.items)
    && s.drops == |s.dropped|
    && (forall x :: x in s.dropped ==> !x.entry.noDrop)
  }

  /** What has been sent, then what is in hand, then what waits: non-heartbeats in the order accepted. */
  ghost predicate Orderly(s: State) {
    && InOrder(s.sent + s.batch + s.items)
    && (forall x :: x in s.sent + s.batch + s.items ==> x.id < |s.accepted|)
  }

  ghost predicate Inv(s: State) {
    Conserved(s) && Counted(s) && Orderly(s)
  }

  lemma RoomDivides(s: State, total: nat, noDrop: bool)
    ensures Divides(s.items, Room(s, total, noDrop))
  {
    hide Divides;
    PassDivides(s.items, s.bytes, total);
    DividesNothing(s.items);
  }

  lemma AdmitConserves(s: State, x: Item, r: Split)
    requires Conserved(s) && x.id == |s.accepted| && multiset(s.items) == multiset(r.kept) + multiset(r.dropped)
    ensures Conserved(Admitted(s, x, r))
  {
    hide Total;
    var t := Admitted(s, x, r);
    assert multiset(t.items) == multiset(r.kept) + multiset{x};
    assert multiset(t.dropped) == multiset(s.dropped) + multiset(r.dropped);
    assert multiset(t.accepted) == multiset(s.accepted) + multiset{x};
  }

  lemma AdmitCounts(s: State, x: Item, r: Split)
    requires Counted(s) && Total(s.items) == Total(r.kept) + Total(r.dropped)
    requires forall y :: y in r.dropped ==> !y.entry.noDrop
    ensures Counted(Admitted(s, x, r))
  {
    hide Total;
    TotalAppend(r.kept, [x]);
    TotalAppend([x], r.kept);
    TotalOne(x);
  }

  /** A newcomer at the back is the youngest; a heartbeat in the middle does not count. */
  lemma JoinKeepsOrder(p: seq<Item>, q: seq<Item>, x: Item)
    requires InOrder(p + q) && (forall y :: y in p + q ==> y.id < x.id)
    ensures InOrder(p + (q + [x]))
    ensures x.heartbeat ==> InOrder(p + ([x] + q))
  {
    var n := |p + q|;
    assert p + (q + [x]) == (p + q) + [x];
    assert forall i :: 0 <= i < n ==> (p + q)[i] in p + q;
    if x.heartbeat {
      var m := p + ([x] + q);
      forall i, j | 0 <= i < j < |m| && !m[i].heartbeat && !m[j].heartbeat
        ensures m[i].id < m[j].id
      {
        assert i != |p| && j != |p|;
        var i', j' := if i < |p| then i else i - 1, if j < |p| then j else j - 1;
        assert m[i] == (p + q)[i'] && m[j] == (p + q)[j'];
      }
    }
  }

  lemma AdmitKeepsOrder(s: State, x: Item, r: Split)
    requires Orderly(s) && x.id == |s.accepted|
    requires InOrder(s.sent + s.batch + r.kept) && multiset(s.items) == multiset(r.kept) + multiset(r.dropped)
    ensures Orderly(Admitted(s, x, r))
  {
    hide InOrder, Total;
    var p := s.sent + s.batch;
    forall y | y in p + r.kept
      ensures y in p + s.items && y.id < x.id
    {
      assert y in r.kept ==> y in multiset(r.kept) && y in multiset(s.items);
    }
    JoinKeepsOrder(p, r.kept, x);
    var t := Admitted(s, x, r);
    assert t.sent + t.batch + t.items == p + t.items;
  }

  lemma EnqueueKeeps(s: State, hdr: seq<Byte>, data: seq<Byte>, noDrop: bool)
    requires Inv(s)
    ensures Inv(Enqueued(s, hdr, data, noDrop))
  {
    hide Conserved, Counted, Orderly, InOrder, Total, Admitted, OnePass;
    var x, r := Newcomer(s, hdr, data, noDrop), Room(s, |hdr| + |data|, noDrop);
    RoomDivides(s, |hdr| + |data|, noDrop);
    AdmitConserves(s, x, r);
    AdmitCounts(s, x, r);
    OrderedItems(s);
    PassKeepsOrder(s.sent + s.batch, s.items, s.bytes, |hdr| + |data|);
    AdmitKeepsOrder(s, x, r);
  }

  lemma OrderedItems(s: State)
    requires Orderly(s)
    ensures InOrder(s.sent + s.batch + s.items)
  {
    hide InOrder;
  }

  lemma TakeKeeps(s: State)
    requires Inv(s) && s.batch == []
    ensures Inv(Taken(s))
  {
    hide InOrder, Total;
    var t, n := Taken(s), BatchSize(s);
    assert s.items == s.items[..n] + s.items[n..];
    assert multiset(s.items) == multiset(t.batch) + multiset(t.items);
    TotalAppend(s.items[..n], s.items[n..]);
    assert s.sent + s.batch + s.items == t.sent + t.batch + t.items;
  }

  lemma SendKeeps(s: State)
    requires Inv(s) && s.batch != []
    ensures Inv(Next(s, SendOk))
  {
    hide InOrder, Total;
    var t := Next(s, SendOk);
    assert s.batch == [s.batch[0]] + s.batch[1..];
    assert multiset(s.batch) + multiset(s.sent) == multiset(t.batch) + multiset(t.sent);
    assert s.sent + s.batch + s.items == t.sent + t.batch + t.items;
  }

  lemma FailKeeps(s: State)
    requires Inv(s)
    ensures Inv(Next(s, SendFailed))
  {
    hide InOrder, Total;
    var t := Next(s, SendFailed);
    assert multiset(t.gone) + multiset(t.batch) == multiset(s.gone) + multiset(s.batch);
    Shorter(s.sent, s.batch, s.items);
    assert forall x :: x in t.sent + t.batch + t.items ==> x in s.sent + s.batch + s.items;
  }

  lemma ClearKeeps(s: State)
    requires Inv(s) && s.batch == []
    ensures Inv(s.(items := [], bytes := 0, gone := s.gone + s.items))
  {
    hide InOrder;
    Prefix(s.sent + s.batch, s.items);
    assert multiset(s.gone + s.items) == multiset(s.gone) + multiset(s.items);
  }

  lemma RunningIsFree(s: State, running: bool)
    requires Inv(s)
    ensures Inv(s.(running := running))
  {
    hide InOrder, Total;
  }

  lemma StepKeeps(s: State, e: Event)
    requires Inv(s)
    ensures Inv(Next(s, e))
  {
    hide Inv;
    match e
    case Enqueue(hdr, data, noDrop) => EnqueueKeeps(s, hdr, data, noDrop);
    case TakeBatch => if s.batch == [] { TakeKeeps(s); }
    case SendOk => if s.batch != [] { SendKeeps(s); }
    case SendFailed => FailKeeps(s);
    case RequestStop => RunningIsFree(s, false);
    case Clear => if s.batch == [] { ClearKeeps(s); }
    case Start =>
      if s.batch == [] {
        ClearKeeps(s);
        RunningIsFree(s.(items := [], bytes := 0, gone := s.gone + s.items), true);
      }
  }

  lemma Prefix(p: seq<Item>, q: seq<Item>)
    requires InOrder(p + q)
    ensures InOrder(p + [])
  {
    assert forall i :: 0 <= i < |p| ==> (p + q)[i] == (p + [])[i];
  }

  lemma Shorter(p: seq<Item>, m: seq<Item>, q: seq<Item>)
    requires InOrder(p + m + q)
    ensures InOrder(p + [] + q)
  {
    var long, short := p + m + q, p + [] + q;
    forall i, j | 0 <= i < j < |short| && !short[i].heartbeat && !short[j].heartbeat
      ensures short[i].id < short[j].id
    {
      var i', j' := if i < |p| then i else i + |m|, if j < |p| then j else j + |m|;
      assert long[i'] == short[i] && long[j'] == short[j];
    }
  }

  /** In every run nothing is lost silently, nothing exempt is dropped, the counters are exact, and order holds. */
  lemma {:induction false} EveryRun(es: seq<Event>)
    ensures Inv(After(es))
    decreases |es|
  {
    hide Inv, Next;
    if es == [] {
      InitialInv();
    } else {
      EveryRun(es[..|es| - 1]);
      StepKeeps(After(es[..|es| - 1]), es[|es| - 1]);
    }
  }

  lemma InitialInv()
    ensures Inv(Initial())
  {
  }

  // ------------------------------------------------------- consequences

  /** After a droppable packet the queue is within its budget unless all the others are exempt. */
  lemma WithinBudget(es: seq<Event>, hdr: seq<Byte>, data: seq<Byte>)
    ensures var s, t := After(es), After(es + [Enqueue(hdr, data, false)]);
            t.bytes <= MAX_BYTES || (forall x :: x in t.items && x != Newcomer(s, hdr, data, false) ==> x.entry.noDrop)
  {
    hide Total, OnePass;
    var s, total := After(es), |hdr| + |data|;
    assert (es + [Enqueue(hdr, data, false)])[..|es|] == es;
    PassFrees(s.items, s.bytes, total);
    var r := OnePass(s.items, s.bytes, total);
    assert After(es + [Enqueue(hdr, data, false)]) == Enqueued(s, hdr, data, false);
    if AllKept(r.kept) {
      assert forall y :: y in r.kept ==> y.entry.noDrop;
    }
  }

  predicate NoInterruption(es: seq<Event>) {
    forall i :: 0 <= i < |es| ==> !es[i].SendFailed? && !es[i].Clear? && !es[i].Start?
  }

  lemma {:induction false} NothingGone(es: seq<Event>)
    requires NoInterruption(es)
    ensures After(es).gone == []
    decreases |es|
  {
    if es != [] {
      NothingGone(es[..|es| - 1]);
    }
  }

  /** While the link holds, the packets accepted are exactly those sent, about to be sent, queued or dropped. */
  lemma {:induction false} AcceptedIsAccountedFor(es: seq<Event>)
    requires NoInterruption(es)
    ensures var s := After(es);
            && multiset(s.accepted) == multiset(s.sent) + multiset(s.batch) + multiset(s.items) + multiset(s.dropped)
            && |s.accepted| == |s.sent| + |s.batch| + |s.items| + s.drops
  {
    EveryRun(es);
    NothingGone(es);
    var s := After(es);
    assert |multiset(s.accepted)|
        == |multiset(s.sent)| + |multiset(s.batch)| + |multiset(s.items)| + |multiset(s.dropped)|;
  }

  /** An exempt packet, once accepted, is never dropped. */
  lemma ExemptSurvives(es: seq<Event>, x: Item)
    requires NoInterruption(es) && x in After(es).accepted && x.entry.noDrop
    ensures var s := After(es); x in s.sent || x in s.batch || x in s.items
  {
    AcceptedIsAccountedFor(es);
    EveryRun(es);
    var s := After(es);
    assert x in multiset(s.accepted);
    assert x !in multiset(s.dropped);
  }

  /** Two non-heartbeats leave in the order they were accepted. */
  lemma SentInOrder(es: seq<Event>, i: nat, j: nat)
    requires i < j < |After(es).sent| && !After(es).sent[i].heartbeat && !After(es).sent[j].heartbeat
    ensures After(es).sent[i].id < After(es).sent[j].id
  {
    EveryRun(es);
    var s := After(es);
    var all := s.sent + s.batch + s.items;
    assert all[i] == s.sent[i] && all[j] == s.sent[j];
  }

  // --------------------------------------------------- who is thrown out

  /** The bytes that dropping everything droppable would free. */
  function Freeable(q: seq<Item>): nat {
    if q == [] then 0 else (if q[0].entry.noDrop then 0 else |q[0].entry.data|) + Freeable(q[1..])
  }

  lemma PassKeepsMembers(q: seq<Item>, bytes: int, total: nat)
    ensures forall y :: y in OnePass(q, bytes, total).kept ==> y in multiset(q)
  {
    hide Total;
    PassDivides(q, bytes, total);
    var r := OnePass(q, bytes, total);
    assert forall y :: y in r.kept ==> y in multiset(r.kept);
  }

  /** An entry survives the pass exactly when it is exempt or what lies before it frees enough. */
  lemma {:induction false} PassSparesExactly(q: seq<Item>, bytes: int, total: nat, i: nat)
    requires i < |q| && q[i] !in q[..i] && q[i] !in q[i + 1..]
    ensures q[i] in OnePass(q, bytes, total).kept <==>
              q[i].entry.noDrop || bytes - Freeable(q[..i]) + total <= MAX_BYTES
    decreases q
  {
    hide OnePass;
    PassStep(q, bytes, total);
    PassKeepsMembers(q[1..], bytes - |q[0].entry.data|, total);
    if i > 0 {
      assert q[..i][1..] == q[1..][..i - 1] && q[1..][i..] == q[i + 1..];
      PassSparesExactly(q[1..], bytes - (if q[0].entry.noDrop then 0 else |q[0].entry.data|), total, i - 1);
      assert q[i] != q[..i][0];
    } else {
      assert q[1..] == q[i + 1..];
    }
  }

  /** Accepted packets carry different numbers. */
  lemma {:induction false} Once(a: seq<Item>, x: Item)
    requires forall i :: 0 <= i < |a| ==> a[i].id == i
    ensures multiset(a)[x] <= 1 && (x.id >= |a| ==> multiset(a)[x] == 0)
    decreases |a|
  {
    if a != [] {
      var n := |a| - 1;
      Once(a[..n], x);
      assert a == a[..n] + [a[n]];
    }
  }

  lemma {:induction false} RunConserves(es: seq<Event>)
    ensures Conserved(After(es))
  {
    hide Conserved, Counted, Orderly;
    EveryRun(es);
  }

  lemma QueuedOnce(s: State, i: nat)
    requires Conserved(s) && i < |s.items|
    ensures s.items[i] !in s.items[..i] && s.items[i] !in s.items[i + 1..] && s.items[i].id < |s.accepted|
  {
    var h, p, q := s.items[i], s.items[..i], s.items[i + 1..];
    Once(s.accepted, h);
    assert s.items == p + [h] + q;
    assert multiset(s.items)[h] <= multiset(s.accepted)[h];
    NotTwice(p, h, q);
  }

  lemma NotTwice(p: seq<Item>, h: Item, q: seq<Item>)
    requires multiset(p + [h] + q)[h] <= 1
    ensures h !in p && h !in q
  {
    assert multiset(p + [h] + q)[h] == multiset(p)[h] + 1 + multiset(q)[h];
    assert h !in multiset(p) && h !in multiset(q);
  }

  /**
   * Wherever it waits, a packet survives the next one exactly when it is exempt, or the next one is,
   * or that one fits once everything droppable before it has gone.
   */
  lemma QueuedSurvivesExactly(es: seq<Event>, i: nat, hdr: seq<Byte>, data: seq<Byte>, noDrop: bool)
    requires i < |After(es).items|
    ensures var s := After(es);
            s.items[i] in After(es + [Enqueue(hdr, data, noDrop)]).items
            <==> s.items[i].entry.noDrop || noDrop || s.bytes - Freeable(s.items[..i]) + |hdr| + |data| <= MAX_BYTES
  {
    hide Total, OnePass, Conserved, Freeable;
    var s := After(es);
    RunConserves(es);
    AfterOne(es, Enqueue(hdr, data, noDrop));
    QueuedOnce(s, i);
    PassSparesExactly(s.items, s.bytes, |hdr| + |data|, i);
    assert s.items[i] != Newcomer(s, hdr, data, noDrop);
  }

  lemma AfterOne(es: seq<Event>, e: Event)
    ensures After(es + [e]) == Next(After(es), e)
  {
    hide Next;
    assert (es + [e])[..|es|] == es;
  }

  // ----------------------------------------------------------- heartbeats

  /** A heartbeat goes to the front: taken next, it leads the batch. */
  lemma HeartbeatLeads(es: seq<Event>, hdr: seq<Byte>, data: seq<Byte>, noDrop: bool)
    requires IsHeartbeat(data) && After(es).batch == []
    ensures var s, t := After(es), After(es + [Enqueue(hdr, data, noDrop)] + [TakeBatch]);
            t.batch != [] && t.batch[..1] == [Newcomer(s, hdr, data, noDrop)]
  {
    hide Total, OnePass;
    var e := Enqueue(hdr, data, noDrop);
    AfterOne(es, e);
    AfterOne(es + [e], TakeBatch);
    FrontLeads(After(es + [e]));
  }

  /** Whatever is in front leads the next batch. */
  lemma FrontLeads(s: State)
    ensures var t := Taken(s);
            (t.batch == [] <==> s.items == []) && (s.items != [] ==> t.batch[0] == s.items[0])
  {
    hide Total;
  }

  predicate Leads(s: State, h: Item) {
    s.items != [] && s.items[0] == h
  }

  /** An event that comes before the next batch is taken. */
  predicate Before(e: Event) {
    !e.TakeBatch? && !e.Clear? && !e.Start?
  }

  /** The event leaves h its place: no heartbeat, and no packet that does not fit beside a droppable h. */
  predicate Spares(s: State, h: Item, e: Event) {
    e.Enqueue? ==> !IsHeartbeat(e.data) && (h.entry.noDrop || e.noDrop || s.bytes + |e.hdr| + |e.data| <= MAX_BYTES)
  }

  /** A heartbeat in front survives the next packet exactly when it is exempt, or that one is or fits. */
  lemma FrontHeartbeatSurvivesExactly(es: seq<Event>, hdr: seq<Byte>, data: seq<Byte>, noDrop: bool)
    requires After(es).items != [] && After(es).items[0].heartbeat
    ensures var s := After(es);
            s.items[0] in After(es + [Enqueue(hdr, data, noDrop)]).items
            <==> s.items[0].entry.noDrop || noDrop || s.bytes + |hdr| + |data| <= MAX_BYTES
  {
    hide Total;
    QueuedSurvivesExactly(es, 0, hdr, data, noDrop);
  }

  lemma StepLeads(s: State, h: Item, e: Event)
    requires Conserved(s) && Leads(s, h) && Before(e)
    ensures Leads(Next(s, e), h) <==> Spares(s, h, e)
  {
    hide Total, OnePass, Conserved;
    if e.Enqueue? {
      var total := |e.hdr| + |e.data|;
      QueuedOnce(s, 0);
      PassStep(s.items, s.bytes, total);
      PassKeepsMembers(s.items[1..], s.bytes - |h.entry.data|, total);
      var r := OnePass(s.items[1..], s.bytes - |h.entry.data|, total);
      assert h !in r.kept;
      assert h != Newcomer(s, e.hdr, e.data, e.noDrop);
    }
  }

  /** What is not in the queue any more does not come back. */
  lemma StaysAway(s: State, h: Item, e: Event)
    requires h !in s.items && h.id < |s.accepted|
    ensures h !in Next(s, e).items && h.id < |Next(s, e).accepted|
  {
    hide Total, OnePass;
    if e.Enqueue? {
      PassKeepsMembers(s.items, s.bytes, |e.hdr| + |e.data|);
    }
  }

  lemma StepWithout(s: State, h: Item, e: Event)
    requires Conserved(s) && Leads(s, h) && Before(e) && !(e.Enqueue? && IsHeartbeat(e.data)) && !Spares(s, h, e)
    ensures h !in Next(s, e).items && h.id < |Next(s, e).accepted|
  {
    hide Total, OnePass, Conserved;
    var total := |e.hdr| + |e.data|;
    QueuedOnce(s, 0);
    PassStep(s.items, s.bytes, total);
    PassKeepsMembers(s.items[1..], s.bytes - |h.entry.data|, total);
    assert h != Newcomer(s, e.hdr, e.data, e.noDrop);
  }

  /** h is in front after each of the first n events. */
  ghost predicate AlwaysLeads(es: seq<Event>, h: Item, fs: seq<Event>, n: nat)
    requires n <= |fs|
  {
    forall i :: 0 <= i <= n ==> Leads(After(es + fs[..i]), h)
  }

  ghost predicate AlwaysSpares(es: seq<Event>, h: Item, fs: seq<Event>, n: nat)
    requires n <= |fs|
  {
    forall i :: 0 <= i < n ==> Spares(After(es + fs[..i]), h, fs[i])
  }

  lemma AfterNext(es: seq<Event>, fs: seq<Event>, n: nat)
    requires n < |fs|
    ensures After(es + fs[..n + 1]) == Next(After(es + fs[..n]), fs[n])
  {
    hide Next;
    assert es + fs[..n + 1] == (es + fs[..n]) + [fs[n]];
    AfterOne(es + fs[..n], fs[n]);
  }

  lemma {:induction false} KeptFor(es: seq<Event>, h: Item, fs: seq<Event>, n: nat)
    requires Leads(After(es), h) && n <= |fs| && forall i :: 0 <= i < n ==> Before(fs[i])
    ensures AlwaysLeads(es, h, fs, n) <==> AlwaysSpares(es, h, fs, n)
  {
    hide Next, Spares, After, Conserved, Before, Leads;
    if n == 0 {
      assert es + fs[..0] == es;
    } else {
      KeptFor(es, h, fs, n - 1);
      AfterNext(es, fs, n - 1);
      if Leads(After(es + fs[..n - 1]), h) {
        RunConserves(es + fs[..n - 1]);
        StepLeads(After(es + fs[..n - 1]), h, fs[n - 1]);
      }
    }
  }

  /**
   * The promise to a heartbeat: it stays in front until the next batch is taken exactly when no later
   * heartbeat comes, and it is exempt or every later droppable packet fits.
   */
  lemma FrontKeptExactly(es: seq<Event>, h: Item, fs: seq<Event>)
    requires Leads(After(es), h) && forall i :: 0 <= i < |fs| ==> Before(fs[i])
    ensures AlwaysLeads(es, h, fs, |fs|) <==> AlwaysSpares(es, h, fs, |fs|)
  {
    KeptFor(es, h, fs, |fs|);
  }

  predicate NoHeartbeat(fs: seq<Event>) {
    forall i :: 0 <= i < |fs| && fs[i].Enqueue? ==> !IsHeartbeat(fs[i].data)
  }

  lemma {:induction false} OnceGone(es: seq<Event>, h: Item, fs: seq<Event>, n: nat)
    requires Leads(After(es), h) && n <= |fs| && (forall i :: 0 <= i < n ==> Before(fs[i])) && NoHeartbeat(fs)
    ensures var t := After(es + fs[..n]);
            if AlwaysSpares(es, h, fs, n) then Leads(t, h) else h !in t.items && h.id < |t.accepted|
  {
    hide Next, Spares, After, Conserved, Before, IsHeartbeat, Leads;
    if n == 0 {
      assert es + fs[..0] == es;
    } else {
      OnceGone(es, h, fs, n - 1);
      AfterNext(es, fs, n - 1);
      var s := After(es + fs[..n - 1]);
      if AlwaysSpares(es, h, fs, n - 1) {
        RunConserves(es + fs[..n - 1]);
        StepLeads(s, h, fs[n - 1]);
        if !Spares(s, h, fs[n - 1]) {
          StepWithout(s, h, fs[n - 1]);
        }
      } else {
        StaysAway(s, h, fs[n - 1]);
      }
    }
  }

  /** Without another heartbeat it leads the next batch, and else it is in no batch at all. */
  lemma LeadsNextBatchExactly(es: seq<Event>, h: Item, fs: seq<Event>)
    requires Leads(After(es), h) && (forall i :: 0 <= i < |fs| ==> Before(fs[i])) && NoHeartbeat(fs)
    requires After(es + fs).batch == []
    ensures var t := After(es + fs + [TakeBatch]);
            && (t.batch != [] && t.batch[0] == h <==> AlwaysSpares(es, h, fs, |fs|))
            && (!AlwaysSpares(es, h, fs, |fs|) ==> h !in t.batch && h !in t.items)
  {
    hide After, AlwaysSpares, Before, IsHeartbeat, Total;
    OnceGone(es, h, fs, |fs|);
    assert fs[..|fs|] == fs;
    AfterOne(es + fs, TakeBatch);
    FrontLeads(After(es + fs));
    var s := After(es + fs);
    assert s.items == s.items[..BatchSize(s)] + s.items[BatchSize(s)..];
  }

  // ------------------------------------------------------- step by step

  /** The packet just put, and the others. */
  function JustPut(q: seq<Item>, urgent: bool): Item
    requires q != []
  {
    if urgent then q[0] else q[|q| - 1]
  }

  function Others(q: seq<Item>, urgent: bool): seq<Item>
    requires q != []
  {
    if urgent then q[1..] else q[..|q| - 1]
  }

  /**
   * A packet, header before data, goes to the end of the queue, or to its front when it is a heartbeat:
   * nine bytes of data or more, the fifth being 20. Nothing is dropped for it when it is exempt or all
   * fits into four megabytes; otherwise it fits afterwards, or only exempt packets are left.
   */
  lemma {:induction false} EnqueueOutcome(s: State, hdr: seq<Byte>, data: seq<Byte>, noDrop: bool)
    ensures var t := Next(s, Enqueue(hdr, data, noDrop));
            var urgent := |data| >= 9 && data[4] == 20;
            && t.items != [] && JustPut(t.items, urgent) == Item(Entry(hdr + data, noDrop), urgent, |s.accepted|)
            && t.accepted == s.accepted + [JustPut(t.items, urgent)]
            && (noDrop || s.bytes + |hdr| + |data| <= 4_194_304 ==>
                  Others(t.items, urgent) == s.items && t.dropped == s.dropped)
            && (!noDrop ==> t.bytes <= 4_194_304 || forall y :: y in Others(t.items, urgent) ==> y.entry.noDrop)
            && |t.dropped| >= |s.dropped| && t.dropped[..|s.dropped|] == s.dropped
            && t.bytes == s.bytes - Total(t.dropped[|s.dropped|..]) + |hdr| + |data|
            && multiset(s.items) == multiset(Others(t.items, urgent)) + multiset(t.dropped[|s.dropped|..])
            && t.running == s.running && t.batch == s.batch && t.sent == s.sent && t.gone == s.gone
  {
    hide OnePass, Total, AllKept;
    var total := |hdr| + |data|;
    var r := Room(s, total, noDrop);
    RoomDivides(s, total, noDrop);
    var t := Next(s, Enqueue(hdr, data, noDrop));
    assert t.dropped[..|s.dropped|] == s.dropped && t.dropped[|s.dropped|..] == r.dropped;
    NothingTotal();
    if !noDrop {
      PassFrees(s.items, s.bytes, total);
      KeptAre(r.kept);
      if s.bytes + total <= MAX_BYTES {
        PassStep(s.items, s.bytes, total);
      }
    }
    var x := Newcomer(s, hdr, data, noDrop);
    assert JustPut(t.items, x.heartbeat) == x && Others(t.items, x.heartbeat) == r.kept;
  }

  lemma NothingTotal()
    ensures Total([]) == 0
  {
  }

  lemma KeptAre(q: seq<Item>)
    ensures AllKept(q) <==> forall y :: y in q ==> y.entry.noDrop
  {
  }

  /** Once a batch is sent, the next is the first 64 packets, or all when there are fewer. */
  lemma TakeOutcome(s: State)
    requires s.batch == []
    ensures var t, n := Next(s, TakeBatch), if |s.items| < 64 then |s.items| else 64;
            t == s.(batch := s.items[..n], items := s.items[n..], bytes := s.bytes - Total(s.items[..n]))
  {
    hide Total;
  }

  /** Stopping shuts the queue; emptying it loses what it holds; starting empties and opens it. */
  lemma ResetOutcome(s: State)
    requires s.batch == []
    ensures var t := s.(items := [], bytes := 0, gone := s.gone + s.items);
            Next(s, Clear) == t && Next(s, Start) == t.(running := true)
    ensures Next(s, RequestStop) == s.(running := false)
  {
  }
}
