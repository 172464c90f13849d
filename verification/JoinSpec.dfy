/**
 * The send queues of one connected client: four classes of packets, byte budgets, and a worker that
 * takes them in batches. What a step does, and what holds after any interleaving of steps.
 */
module JoinSpec {
  import opened Prelude

  type Packet = seq<Byte>

  const SEND_MAX: nat := 2 * 1024 * 1024
  const AUDIO_MAX: nat := 512 * 1024
  const FILE_MAX: nat := 16 * 1024 * 1024
  const FFT_PER_BATCH: nat := 4
  const FILE_PER_BATCH: nat := 2

  function Total(q: seq<Packet>): (n: nat) {
    if q == [] then 0 else |q[0]| + Total(q[1..])
  }

  lemma {:induction false} TotalAppend(p: seq<Packet>, q: seq<Packet>)
    ensures Total(p + q) == Total(p) + Total(q)
    decreases p
  {
    if p == [] {
      assert p + q == q;
    } else {
      assert (p + q)[1..] == p[1..] + q;
      TotalAppend(p[1..], q);
    }
  }

  lemma TotalSplit(q: seq<Packet>, k: nat)
    requires k <= |q|
    ensures Total(q) == Total(q[..k]) + Total(q[k..])
  {
    assert q == q[..k] + q[k..];
    TotalAppend(q[..k], q[k..]);
  }

  lemma TotalOne(p: Packet)
    ensures Total([p]) == |p|
  {
  }

  // ---------------------------------------------------------------- lanes

  /** A packet that has left its queue, by being taken for sending or by being dropped. */
  datatype Exit = Exit(pkt: Packet, sent: bool)

  /** A queue and its byte counter, with every packet ever accepted and every one that has left. */
  datatype Lane = Lane(queue: seq<Packet>, bytes: int, accepted: seq<Packet>, removed: seq<Exit>)

  function Packets(r: seq<Exit>): (ps: seq<Packet>)
    ensures |ps| == |r| && forall i :: 0 <= i < |r| ==> ps[i] == r[i].pkt
  {
    seq(|r|, i requires 0 <= i < |r| => r[i].pkt)
  }

  function SentOf(r: seq<Exit>): seq<Packet> {
    if r == [] then [] else SentOf(r[..|r| - 1]) + if r[|r| - 1].sent then [r[|r| - 1].pkt] else []
  }

  function Exits(ps: seq<Packet>, sent: bool): (r: seq<Exit>)
    ensures |r| == |ps| && forall i :: 0 <= i < |ps| ==> r[i] == Exit(ps[i], sent)
  {
    seq(|ps|, i requires 0 <= i < |ps| => Exit(ps[i], sent))
  }

  lemma SentOfNext(r: seq<Exit>, e: Exit)
    ensures SentOf(r + [e]) == SentOf(r) + if e.sent then [e.pkt] else []
  {
    assert (r + [e])[..|r|] == r;
  }

  lemma ExitsNext(r: seq<Exit>, ps: seq<Packet>, sent: bool)
    requires ps != []
    ensures r + Exits(ps, sent) == (r + Exits(ps[..|ps| - 1], sent)) + [Exit(ps[|ps| - 1], sent)]
  {
  }

  lemma {:induction false} SentOfAppend(r: seq<Exit>, ps: seq<Packet>, sent: bool)
    ensures SentOf(r + Exits(ps, sent)) == if sent then SentOf(r) + ps else SentOf(r)
    decreases |ps|
  {
    hide SentOf, Exits;
    if ps == [] {
      assert r + Exits(ps, sent) == r;
    } else {
      var n := |ps| - 1;
      ExitsNext(r, ps, sent);
      SentOfNext(r + Exits(ps[..n], sent), Exit(ps[n], sent));
      SentOfAppend(r, ps[..n], sent);
      assert (SentOf(r) + ps[..n]) + [ps[n]] == SentOf(r) + ps;
      assert SentOf(r) + [] == SentOf(r);
    }
  }

  lemma {:induction false} AllSent(r: seq<Exit>)
    requires forall i :: 0 <= i < |r| ==> r[i].sent
    ensures SentOf(r) == Packets(r)
    decreases |r|
  {
    if r != [] {
      AllSent(r[..|r| - 1]);
    }
  }

  /** The counter is exact; accepted packets are those that have left, in order, then those that wait. */
  ghost predicate LaneInv(l: Lane) {
    l.bytes == Total(l.queue) && l.accepted == Packets(l.removed) + l.queue
  }

  ghost predicate NothingDropped(l: Lane) {
    forall i :: 0 <= i < |l.removed| ==> l.removed[i].sent
  }

  /** Within its budget, or down to a single packet. */
  ghost predicate Bounded(l: Lane, limit: nat) {
    l.bytes <= limit || |l.queue| <= 1
  }

  function EmptyLane(): Lane {
    Lane([], 0, [], [])
  }

  /** How many of the oldest packets go before one of n bytes fits. */
  function Excess(q: seq<Packet>, bytes: int, n: nat, limit: nat): (k: nat)
    ensures k <= |q|
  {
    if q == [] || bytes + n <= limit then 0 else 1 + Excess(q[1..], bytes - |q[0]|, n, limit)
  }

  /** What stays is the longest run of newest packets that leaves room, or nothing. */
  lemma {:induction false} ExcessIsLeast(q: seq<Packet>, n: nat, limit: nat)
    ensures var k := Excess(q, Total(q), n, limit);
            && (k == |q| || Total(q[k..]) + n <= limit)
            && forall j :: 0 <= j < k ==> Total(q[j..]) + n > limit
    decreases q
  {
    hide Total, Excess;
    ExcessStep(q, Total(q), n, limit);
    assert q[0..] == q;
    if q != [] && Total(q) + n > limit {
      FirstInTotal(q);
      var k := Excess(q[1..], Total(q[1..]), n, limit);
      ExcessIsLeast(q[1..], n, limit);
      assert q[1..][k..] == q[k + 1..];
      forall j | 0 <= j < k + 1
        ensures Total(q[j..]) + n > limit
      {
        if j > 0 {
          assert q[1..][j - 1..] == q[j..];
        }
      }
    }
  }

  lemma ExcessStep(q: seq<Packet>, bytes: int, n: nat, limit: nat)
    ensures Excess(q, bytes, n, limit)
         == if q == [] || bytes + n <= limit then 0 else 1 + Excess(q[1..], bytes - |q[0]|, n, limit)
  {
  }

  lemma FirstInTotal(q: seq<Packet>)
    requires q != []
    ensures Total(q) == |q[0]| + Total(q[1..])
  {
  }

  function Append(l: Lane, p: Packet): Lane {
    l.(queue := l.queue + [p], bytes := l.bytes + |p|, accepted := l.accepted + [p])
  }

  function Shed(l: Lane, k: nat): Lane
    requires k <= |l.queue|
  {
    l.(queue := l.queue[k..], bytes := l.bytes - Total(l.queue[..k]), removed := l.removed + Exits(l.queue[..k], false))
  }

  /** Drop the oldest until the packet fits, then append it. */
  function Put(l: Lane, p: Packet, limit: nat): Lane {
    Append(Shed(l, Excess(l.queue, l.bytes, |p|, limit)), p)
  }

  function TakeN(l: Lane, n: nat): Lane
    requires n <= |l.queue|
  {
    l.(queue := l.queue[n..], bytes := l.bytes - Total(l.queue[..n]), removed := l.removed + Exits(l.queue[..n], true))
  }

  lemma LeaveKeeps(l: Lane, n: nat, sent: bool)
    requires LaneInv(l) && n <= |l.queue|
    ensures LaneInv(if sent then TakeN(l, n) else Shed(l, n))
    ensures sent && NothingDropped(l) ==> NothingDropped(TakeN(l, n))
    ensures 0 <= l.bytes - Total(l.queue[..n])
    ensures SentOf((if sent then TakeN(l, n) else Shed(l, n)).removed)
         == SentOf(l.removed) + if sent then l.queue[..n] else []
  {
    hide Total, SentOf, Exits, Packets;
    TotalSplit(l.queue, n);
    SentOfAppend(l.removed, l.queue[..n], sent);
    PacketsLeave(l.removed, l.queue, n, sent);
    assert SentOf(l.removed) + [] == SentOf(l.removed);
  }

  lemma PacketsLeave(r: seq<Exit>, q: seq<Packet>, n: nat, sent: bool)
    requires n <= |q|
    ensures Packets(r + Exits(q[..n], sent)) + q[n..] == Packets(r) + q
  {
    var u, v := Packets(r + Exits(q[..n], sent)) + q[n..], Packets(r) + q;
    forall i | 0 <= i < |v|
      ensures u[i] == v[i]
    {
    }
  }

  lemma AppendKeeps(l: Lane, p: Packet)
    requires LaneInv(l)
    ensures LaneInv(Append(l, p))
  {
    hide Total;
    TotalAppend(l.queue, [p]);
    TotalOne(p);
  }

  lemma PutKeeps(l: Lane, p: Packet, limit: nat)
    requires LaneInv(l)
    ensures LaneInv(Put(l, p, limit)) && Bounded(Put(l, p, limit), limit)
    ensures SentOf(Put(l, p, limit).removed) == SentOf(l.removed)
  {
    hide Total, LaneInv, SentOf;
    var k := Excess(l.queue, l.bytes, |p|, limit);
    LeaveKeeps(l, k, false);
    AppendKeeps(Shed(l, k), p);
    LaneBytes(l);
    ExcessIsLeast(l.queue, |p|, limit);
    LaneBytes(Shed(l, k));
    assert SentOf(l.removed) + [] == SentOf(l.removed);
  }

  lemma LaneBytes(l: Lane)
    requires LaneInv(l)
    ensures l.bytes == Total(l.queue)
  {
  }

  // --------------------------------------------------------------- client

  datatype Kind = Ctrl | Audio | Fft | File
  datatype Tagged = Tagged(kind: Kind, pkt: Packet)

  function Tag(kind: Kind, ps: seq<Packet>): (ts: seq<Tagged>)
    ensures |ts| == |ps| && forall i :: 0 <= i < |ps| ==> ts[i] == Tagged(kind, ps[i])
  {
    seq(|ps|, i requires 0 <= i < |ps| => Tagged(kind, ps[i]))
  }

  /** The packets of one class, in order. */
  function Of(kind: Kind, ts: seq<Tagged>): seq<Packet> {
    if ts == [] then [] else Of(kind, ts[..|ts| - 1]) + if ts[|ts| - 1].kind == kind then [ts[|ts| - 1].pkt] else []
  }

  lemma {:induction false} OfAppend(kind: Kind, s: seq<Tagged>, t: seq<Tagged>)
    ensures Of(kind, s + t) == Of(kind, s) + Of(kind, t)
    decreases |t|
  {
    if t == [] {
      assert s + t == s;
    } else {
      assert (s + t)[..|s + t| - 1] == s + t[..|t| - 1];
      OfAppend(kind, s, t[..|t| - 1]);
    }
  }

  lemma {:induction false} OfTag(kind: Kind, k: Kind, ps: seq<Packet>)
    ensures Of(kind, Tag(k, ps)) == if kind == k then ps else []
    decreases |ps|
  {
    if ps != [] {
      assert Tag(k, ps)[..|ps| - 1] == Tag(k, ps[..|ps| - 1]);
      OfTag(kind, k, ps[..|ps| - 1]);
    }
  }

  /**
   * alive and stop are the flags, the lanes are the four queues; inHand is the batch the worker is
   * sending, wire what has gone out, lost what was in hand when the link failed.
   */
  datatype State = State(alive: bool, stop: bool, ctrl: Lane, audio: Lane, fft: Lane, file: Lane,
                         inHand: seq<Tagged>, wire: seq<Tagged>, lost: seq<Tagged>)

  function Initial(): State {
    State(true, false, EmptyLane(), EmptyLane(), EmptyLane(), EmptyLane(), [], [], [])
  }

  function LaneOf(s: State, kind: Kind): Lane {
    match kind
    case Ctrl => s.ctrl
    case Audio => s.audio
    case Fft => s.fft
    case File => s.file
  }

  datatype Event =
    | EnqueueCtrl(p: Packet)
    | EnqueueData(p: Packet)
    | EnqueueAudio(p: Packet)
    | EnqueueFile(p: Packet)
    | TakeBatch
    | SendNext(ok: bool)
    | Fail
    | Stop

  /** A file packet waits until the queue is empty or has room for it. */
  predicate FileFits(s: State, p: Packet) {
    s.file.queue == [] || s.file.bytes + |p| <= FILE_MAX
  }

  function AtMost(q: seq<Packet>, n: nat): (k: nat)
    ensures k <= |q| && k <= n
  {
    if |q| < n then |q| else n
  }

  /** Control packets alone; or else all audio, then a few FFT frames, then a little of the files. */
  function Taken(s: State): State {
    if s.ctrl.queue != [] then
      s.(ctrl := TakeN(s.ctrl, |s.ctrl.queue|), inHand := Tag(Ctrl, s.ctrl.queue))
    else
      var f, m := AtMost(s.fft.queue, FFT_PER_BATCH), AtMost(s.file.queue, FILE_PER_BATCH);
      s.(audio := TakeN(s.audio, |s.audio.queue|), fft := TakeN(s.fft, f), file := TakeN(s.file, m),
         inHand := Tag(Audio, s.audio.queue) + Tag(Fft, s.fft.queue[..f]) + Tag(File, s.file.queue[..m]))
  }

  function Next(s: State, e: Event): State {
    match e
    case EnqueueCtrl(p) => s.(ctrl := Append(s.ctrl, p))
    case EnqueueData(p) => s.(fft := Put(s.fft, p, SEND_MAX))
    case EnqueueAudio(p) => s.(audio := Put(s.audio, p, AUDIO_MAX))
    case EnqueueFile(p) => if s.alive && !s.stop && FileFits(s, p) then s.(file := Append(s.file, p)) else s
    case TakeBatch => if s.inHand == [] then Taken(s) else s
    case SendNext(ok) =>
      if s.inHand == [] then s
      else if s.alive && ok then s.(inHand := s.inHand[1..], wire := s.wire + [s.inHand[0]])
      else s.(alive := false, inHand := s.inHand[1..], lost := s.lost + [s.inHand[0]])
    case Fail => s.(alive := false)
    case Stop => s.(stop := true)
  }

  function After(es: seq<Event>): State {
    if es == [] then Initial() else Next(After(es[..|es| - 1]), es[|es| - 1])
  }

  // ------------------------------------------------------------ invariants

  ghost predicate LanesOk(s: State) {
    && LaneInv(s.ctrl) && NothingDropped(s.ctrl)
    && LaneInv(s.audio) && Bounded(s.audio, AUDIO_MAX)
    && LaneInv(s.fft) && Bounded(s.fft, SEND_MAX)
    && LaneInv(s.file) && NothingDropped(s.file) && Bounded(s.file, FILE_MAX)
  }

  /** What left a queue to be sent is, class by class, what went out, got lost or is in hand. */
  ghost predicate Traced(s: State) {
    && (forall kind :: Of(kind, s.wire) + Of(kind, s.lost) + Of(kind, s.inHand) == SentOf(LaneOf(s, kind).removed))
    && (s.alive ==> s.lost == [])
  }

  /** A batch is all control or has none. */
  ghost predicate Unmixed(ts: seq<Tagged>) {
    (forall i :: 0 <= i < |ts| ==> ts[i].kind == Ctrl) || (forall i :: 0 <= i < |ts| ==> ts[i].kind != Ctrl)
  }

  ghost predicate Inv(s: State) {
    LanesOk(s) && Traced(s) && Unmixed(s.inHand)
  }

  lemma TakeKeepsBound(l: Lane, n: nat, limit: nat)
    requires LaneInv(l) && Bounded(l, limit) && n <= |l.queue|
    ensures Bounded(TakeN(l, n), limit)
  {
  }

  lemma TakenLanes(s: State)
    requires LanesOk(s)
    ensures LanesOk(Taken(s))
  {
    hide Total, SentOf, LaneInv, Bounded, NothingDropped, TakeN;
    if s.ctrl.queue != [] {
      LeaveKeeps(s.ctrl, |s.ctrl.queue|, true);
    } else {
      var f, m := AtMost(s.fft.queue, FFT_PER_BATCH), AtMost(s.file.queue, FILE_PER_BATCH);
      LeaveKeeps(s.audio, |s.audio.queue|, true);
      LeaveKeeps(s.fft, f, true);
      LeaveKeeps(s.file, m, true);
      TakeKeepsBound(s.audio, |s.audio.queue|, AUDIO_MAX);
      TakeKeepsBound(s.fft, f, SEND_MAX);
      TakeKeepsBound(s.file, m, FILE_MAX);
    }
  }

  /** How much of a class one batch takes. */
  function Share(s: State, kind: Kind): (k: nat)
    ensures k <= |LaneOf(s, kind).queue|
  {
    if s.ctrl.queue != [] then (if kind == Ctrl then |s.ctrl.queue| else 0)
    else match kind
      case Ctrl => 0
      case Audio => |s.audio.queue|
      case Fft => AtMost(s.fft.queue, FFT_PER_BATCH)
      case File => AtMost(s.file.queue, FILE_PER_BATCH)
  }

  lemma TakenOf(s: State, kind: Kind)
    ensures Of(kind, Taken(s).inHand) == LaneOf(s, kind).queue[..Share(s, kind)]
  {
    hide Of, TakeN;
    var q := LaneOf(s, kind).queue;
    assert q[..|q|] == q && q[..0] == [];
    if s.ctrl.queue != [] {
      OfTag(kind, Ctrl, s.ctrl.queue);
    } else {
      ThreeOf(kind, s.audio.queue, s.fft.queue[..AtMost(s.fft.queue, FFT_PER_BATCH)],
              s.file.queue[..AtMost(s.file.queue, FILE_PER_BATCH)]);
    }
  }

  lemma ThreeOf(kind: Kind, a: seq<Packet>, b: seq<Packet>, c: seq<Packet>)
    ensures Of(kind, Tag(Audio, a) + Tag(Fft, b) + Tag(File, c))
         == match kind { case Ctrl => [] case Audio => a case Fft => b case File => c }
  {
    hide Of, Tag;
    OfAppend(kind, Tag(Audio, a) + Tag(Fft, b), Tag(File, c));
    OfAppend(kind, Tag(Audio, a), Tag(Fft, b));
    OfTag(kind, Audio, a);
    OfTag(kind, Fft, b);
    OfTag(kind, File, c);
    assert a + [] + [] == a && [] + b + [] == b && [] + [] + c == c;
  }

  lemma TakenRemoved(s: State, kind: Kind)
    requires LanesOk(s)
    ensures SentOf(LaneOf(Taken(s), kind).removed)
         == SentOf(LaneOf(s, kind).removed) + LaneOf(s, kind).queue[..Share(s, kind)]
  {
    hide Total, SentOf, LaneInv, Bounded, NothingDropped;
    var l := LaneOf(s, kind);
    LeaveKeeps(l, Share(s, kind), true);
    assert SentOf(l.removed) + l.queue[..0] == SentOf(l.removed);
  }

  lemma TakenTraced(s: State)
    requires LanesOk(s) && Traced(s) && s.inHand == []
    ensures Traced(Taken(s))
  {
    hide Of, SentOf, LanesOk, Share;
    var t := Taken(s);
    forall kind
      ensures Of(kind, t.wire) + Of(kind, t.lost) + Of(kind, t.inHand) == SentOf(LaneOf(t, kind).removed)
    {
      TakenOf(s, kind);
      TakenRemoved(s, kind);
      NoneOf(kind);
      assert Of(kind, s.wire) + Of(kind, s.lost) + [] == Of(kind, s.wire) + Of(kind, s.lost);
    }
  }

  lemma NoneOf(kind: Kind)
    ensures Of(kind, []) == []
  {
  }

  lemma MovedTraced(w: seq<Tagged>, x: seq<Tagged>, h: seq<Tagged>, kind: Kind)
    requires h != []
    ensures Of(kind, w + [h[0]]) + Of(kind, x) + Of(kind, h[1..])
         == Of(kind, w) + Of(kind, [h[0]]) + Of(kind, x) + Of(kind, h[1..])
    ensures Of(kind, h) == Of(kind, [h[0]]) + Of(kind, h[1..])
    ensures Of(kind, w) + Of(kind, x + [h[0]]) + Of(kind, h[1..]) == Of(kind, w) + Of(kind, x) + Of(kind, h)
  {
    hide Of;
    assert h == [h[0]] + h[1..];
    OfAppend(kind, w, [h[0]]);
    OfAppend(kind, x, [h[0]]);
    OfAppend(kind, [h[0]], h[1..]);
    var a, b, c, d := Of(kind, w), Of(kind, x), Of(kind, [h[0]]), Of(kind, h[1..]);
    assert a + (b + c) + d == a + b + (c + d);
  }

  lemma SendTraced(s: State, ok: bool)
    requires Traced(s) && s.inHand != []
    ensures Traced(Next(s, SendNext(ok)))
  {
    hide Of, SentOf;
    var t := Next(s, SendNext(ok));
    forall kind
      ensures Of(kind, t.wire) + Of(kind, t.lost) + Of(kind, t.inHand) == SentOf(LaneOf(t, kind).removed)
    {
      MovedTraced(s.wire, s.lost, s.inHand, kind);
      if s.alive && ok {
        NoneOf(kind);
        var a, c, d := Of(kind, s.wire), Of(kind, [s.inHand[0]]), Of(kind, s.inHand[1..]);
        assert a + c + [] + d == a + [] + (c + d);
      }
    }
  }

  lemma TakenUnmixed(s: State)
    ensures Unmixed(Taken(s).inHand)
  {
    hide TakeN;
  }

  lemma StepKeeps(s: State, e: Event)
    requires Inv(s)
    ensures Inv(Next(s, e))
  {
    hide LaneInv, Bounded, NothingDropped, Put, Append, Of, SentOf, Taken, Total;
    match e
    case EnqueueCtrl(p) =>
      AppendKeeps(s.ctrl, p);
      Appended(s.ctrl, p);
    case EnqueueData(p) =>
      PutKeeps(s.fft, p, SEND_MAX);
    case EnqueueAudio(p) =>
      PutKeeps(s.audio, p, AUDIO_MAX);
    case EnqueueFile(p) =>
      AppendKeeps(s.file, p);
      Appended(s.file, p);
      LaneBytes(s.file);
      AppendBounded(s.file, p, FILE_MAX);
    case TakeBatch =>
      if s.inHand == [] {
        TakenLanes(s);
        TakenTraced(s);
        TakenUnmixed(s);
      }
    case SendNext(ok) =>
      if s.inHand != [] {
        SendTraced(s, ok);
      }
    case Fail =>
    case Stop =>
  }

  lemma Appended(l: Lane, p: Packet)
    ensures Append(l, p).removed == l.removed && (NothingDropped(l) ==> NothingDropped(Append(l, p)))
  {
  }

  lemma AppendBounded(l: Lane, p: Packet, limit: nat)
    ensures l.queue == [] || l.bytes + |p| <= limit ==> Bounded(Append(l, p), limit)
  {
  }

  lemma {:induction false} EveryRun(es: seq<Event>)
    ensures Inv(After(es))
    decreases |es|
  {
    hide Inv, Next;
    if es == [] {
      InitialInv();
    } else {
      EveryRun(es[..|es| - 1]);
      StepKeeps(After(es[..|es| - 1]), es[|es| - 1]);
    }
  }

  lemma InitialInv()
    ensures Inv(Initial())
  {
  }

  // ---------------------------------------------------------- consequences

  /** While the link lives, control and file packets have gone out, are going out or wait: all of them, in order. */
  lemma NeverLostNorReordered(es: seq<Event>, kind: Kind)
    requires After(es).alive && (kind == Ctrl || kind == File)
    ensures var s := After(es);
            LaneOf(s, kind).accepted == Of(kind, s.wire) + Of(kind, s.inHand) + LaneOf(s, kind).queue
  {
    hide Of, SentOf, After, Total;
    EveryRun(es);
    var s := After(es);
    AllSent(LaneOf(s, kind).removed);
    NoneOf(kind);
    assert Of(kind, s.wire) + [] + Of(kind, s.inHand) == Of(kind, s.wire) + Of(kind, s.inHand);
  }

  /** The classes that drop lose only their oldest: what waits is the tail of all that was accepted. */
  lemma OnlyOldestDropped(es: seq<Event>, kind: Kind)
    ensures var s := After(es);
            var l := LaneOf(s, kind);
            && l.accepted == Packets(l.removed) + l.queue
            && Of(kind, s.wire) + Of(kind, s.lost) + Of(kind, s.inHand) == SentOf(l.removed)
            && l.bytes == Total(l.queue)
  {
    hide Of, SentOf, After, Total;
    EveryRun(es);
  }

  /** When control packets wait, the next batch is all of them and nothing else. */
  lemma ControlGoesFirst(es: seq<Event>)
    requires After(es).inHand == [] && After(es).ctrl.queue != []
    ensures var s, t := After(es), After(es + [TakeBatch]);
            && t.inHand == Tag(Ctrl, s.ctrl.queue) && t.ctrl.queue == []
            && t.audio == s.audio && t.fft == s.fft && t.file == s.file
  {
    hide Total;
    assert (es + [TakeBatch])[..|es|] == es;
    var q := After(es).ctrl.queue;
    assert q[|q|..] == [];
  }

  /** The queue after one packet more: the longest run of its newest packets that leaves room, or none. */
  ghost predicate MakesRoom(before: seq<Packet>, after: seq<Packet>, p: Packet, limit: nat) {
    exists k :: 0 <= k <= |before| && after == before[k..] + [p]
      && (k == |before| || Total(before[k..]) + |p| <= limit)
      && forall j :: 0 <= j < k ==> Total(before[j..]) + |p| > limit
  }

  lemma PutMakesRoom(l: Lane, p: Packet, limit: nat)
    requires l.bytes == Total(l.queue)
    ensures MakesRoom(l.queue, Put(l, p, limit).queue, p, limit)
  {
    hide Total;
    ExcessIsLeast(l.queue, |p|, limit);
    var k := Excess(l.queue, l.bytes, |p|, limit);
    assert Put(l, p, limit).queue == l.queue[k..] + [p];
  }

  /** Neither the FFT nor the audio queue drops more of its oldest packets than the new one needs. */
  lemma DropsNoMoreThanNeeded(es: seq<Event>, p: Packet)
    ensures MakesRoom(After(es).fft.queue, After(es + [EnqueueData(p)]).fft.queue, p, 2_097_152)
    ensures MakesRoom(After(es).audio.queue, After(es + [EnqueueAudio(p)]).audio.queue, p, 524_288)
  {
    hide Total, Inv, MakesRoom, Put;
    EveryRun(es);
    assert (es + [EnqueueData(p)])[..|es|] == es && (es + [EnqueueAudio(p)])[..|es|] == es;
    InvBytes(After(es));
    PutMakesRoom(After(es).fft, p, SEND_MAX);
    PutMakesRoom(After(es).audio, p, AUDIO_MAX);
  }

  lemma InvBytes(s: State)
    requires Inv(s)
    ensures s.fft.bytes == Total(s.fft.queue) && s.audio.bytes == Total(s.audio.queue)
  {
  }

  // ------------------------------------------------------- step by step

  /** A control packet is always queued, last. */
  lemma CtrlOutcome(s: State, p: Packet)
    ensures var t := Next(s, EnqueueCtrl(p));
            t.ctrl.queue == s.ctrl.queue + [p] && t.ctrl.removed == s.ctrl.removed && t == s.(ctrl := t.ctrl)
  {
  }

  /**
   * A file packet is queued, last, while the connection lives and is not being stopped, as soon as it
   * fits into sixteen megabytes or the queue is empty; nothing is ever dropped for it.
   */
  lemma FileOutcome(s: State, p: Packet)
    ensures var t := Next(s, EnqueueFile(p));
            if s.alive && !s.stop && (s.file.queue == [] || s.file.bytes + |p| <= 16_777_216)
            then t.file.queue == s.file.queue + [p] && t.file.removed == s.file.removed && t == s.(file := t.file)
            else t == s
  {
  }

  /** Data and audio go to the end of their own queue and leave the others alone. */
  lemma DroppingOutcome(s: State, p: Packet)
    ensures var t := Next(s, EnqueueData(p));
            t == s.(fft := t.fft) && t.fft.queue != [] && t.fft.queue[|t.fft.queue| - 1] == p
    ensures var t := Next(s, EnqueueAudio(p));
            t == s.(audio := t.audio) && t.audio.queue != [] && t.audio.queue[|t.audio.queue| - 1] == p
  {
  }

  /** The first n packets of a queue, or all. */
  function FirstOf(q: seq<Packet>, n: nat): seq<Packet> {
    if |q| <= n then q else q[..n]
  }

  /**
   * A batch is all control packets and nothing else, if there are any; otherwise all audio, then up to
   * four of data, then up to two of file.
   */
  lemma BatchOutcome(s: State)
    requires s.inHand == []
    ensures var t := Next(s, TakeBatch);
            && (s.ctrl.queue != [] ==>
                  t.inHand == Tag(Ctrl, s.ctrl.queue) && t == s.(ctrl := t.ctrl, inHand := t.inHand))
            && (s.ctrl.queue == [] ==>
                  t.inHand == Tag(Audio, s.audio.queue) + Tag(Fft, FirstOf(s.fft.queue, 4))
                              + Tag(File, FirstOf(s.file.queue, 2))
                  && t == s.(audio := t.audio, fft := t.fft, file := t.file, inHand := t.inHand))
  {
    hide Total, TakeN;
  }

  /** A packet in hand is sent, or lost once the connection has died or dies with it. */
  lemma SendOutcome(s: State, ok: bool)
    requires s.inHand != []
    ensures var t := Next(s, SendNext(ok));
            && t.inHand == s.inHand[1..] && t.alive == (s.alive && ok)
            && t.wire == s.wire + (if s.alive && ok then [s.inHand[0]] else [])
            && t.lost == s.lost + (if s.alive && ok then [] else [s.inHand[0]])
            && t == s.(alive := t.alive, inHand := t.inHand, wire := t.wire, lost := t.lost)
  {
    assert s.wire + [] == s.wire && s.lost + [] == s.lost;
  }
}
