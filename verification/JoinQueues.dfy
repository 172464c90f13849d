/** One client's send queues as an object: the methods that run under its lock. */
module JoinQueues {
  import opened JoinSpec

  lemma TotalTake(q: seq<Packet>, k: nat)
    requires k < |q|
    ensures Total(q[..k + 1]) == Total(q[..k]) + |q[k]|
  {
    hide Total;
    assert q[..k + 1] == q[..k] + [q[k]];
    TotalAppend(q[..k], [q[k]]);
    TotalOne(q[k]);
  }

  lemma TotalNone(q: seq<Packet>)
    ensures Total(q[..0]) == 0
  {
  }

  /** Drop the oldest until n more bytes fit. */
  method DropOldest(queue: seq<Packet>, bytes: int, n: nat, limit: nat) returns (q: seq<Packet>, b: int)
    ensures var k := Excess(queue, bytes, n, limit);
            q == queue[k..] && b == bytes - Total(queue[..k])
  {
    hide Total, Excess;
    q, b := queue, bytes;
    ghost var k := 0;
    TotalNone(queue);
    while b + n > limit && q != []
      invariant 0 <= k <= |queue| && q == queue[k..] && b == bytes - Total(queue[..k])
      invariant Excess(queue, bytes, n, limit) == k + Excess(q, b, n, limit)
      decreases |q|
    {
      ExcessStep(q, b, n, limit);
      TotalTake(queue, k);
      b := b - |q[0]|;
      q := q[1..];
      k := k + 1;
    }
    ExcessStep(q, b, n, limit);
  }

  /** Move up to n packets to the batch; the counter never needs to be clamped at zero. */
  method MoveOut(queue: seq<Packet>, bytes: int, n: nat, kind: Kind, batch: seq<Tagged>)
    returns (q: seq<Packet>, b: int, out: seq<Tagged>)
    requires bytes == Total(queue)
    ensures var k := AtMost(queue, n);
            q == queue[k..] && b == bytes - Total(queue[..k]) && out == batch + Tag(kind, queue[..k])
  {
    hide Total;
    q, b, out := queue, bytes, batch;
    var i := 0;
    TotalNone(queue);
    while q != [] && i < n
      invariant 0 <= i <= |queue| && i <= n && q == queue[i..] && b == bytes - Total(queue[..i]) && b == Total(q)
      invariant out == batch + Tag(kind, queue[..i])
      decreases |q|
    {
      var sz := |q[0]|;
      FirstInTotal(q);
      TotalTake(queue, i);
      out := out + [Tagged(kind, q[0])];
      q := q[1..];
      if b >= sz {
        b := b - sz;
      } else {
        b := 0;
      }
      i := i + 1;
    }
  }


  class JoinEntry {
    var alive: bool
    var sendStop: bool
    var ctrlQueue: seq<Packet>
    var audioQueue: seq<Packet>
    var sendQueue: seq<Packet>
    var fileQueue: seq<Packet>
    var audioQueueBytes: int
    var sendQueueBytes: int
    var fileQueueBytes: int
    ghost var state: State

    ghost predicate Shows()
      reads this
    {
      && alive == state.alive && sendStop == state.stop && ctrlQueue == state.ctrl.queue
      && audioQueue == state.audio.queue && audioQueueBytes == state.audio.bytes
      && sendQueue == state.fft.queue && sendQueueBytes == state.fft.bytes
      && fileQueue == state.file.queue && fileQueueBytes == state.file.bytes
    }

    /** The fields and the state agree, and the state satisfies the invariant of all runs. */
    ghost predicate Valid()
      reads this
    {
      Shows() && Inv(state)
    }

    constructor ()
      ensures Valid() && state == Initial() && alive && !sendStop
    {
      alive, sendStop := true, false;
      ctrlQueue, audioQueue, sendQueue, fileQueue := [], [], [], [];
      audioQueueBytes, sendQueueBytes, fileQueueBytes := 0, 0, 0;
      state := Initial();
      new;
      InitialInv();
    }

    method EnqueueCtrl(p: Packet)
      requires Valid()
      modifies this
      ensures Valid() && state == Next(old(state), JoinSpec.EnqueueCtrl(p))
    {
      hide Inv;
      StepKeeps(state, JoinSpec.EnqueueCtrl(p));
      ctrlQueue := ctrlQueue + [p];
      state := Next(state, JoinSpec.EnqueueCtrl(p));
    }

    method EnqueueData(p: Packet)
      requires Valid()
      modifies this
      ensures Valid() && state == Next(old(state), JoinSpec.EnqueueData(p))
    {
      hide Inv, Excess, Total;
      StepKeeps(state, JoinSpec.EnqueueData(p));
      var q, b := DropOldest(sendQueue, sendQueueBytes, |p|, SEND_MAX);
      sendQueue := q + [p];
      sendQueueBytes := b + |p|;
      state := Next(state, JoinSpec.EnqueueData(p));
    }

    method EnqueueAudio(p: Packet)
      requires Valid()
      modifies this
      ensures Valid() && state == Next(old(state), JoinSpec.EnqueueAudio(p))
    {
      hide Inv, Excess, Total;
      StepKeeps(state, JoinSpec.EnqueueAudio(p));
      var q, b := DropOldest(audioQueue, audioQueueBytes, |p|, AUDIO_MAX);
      audioQueue := q + [p];
      audioQueueBytes := b + |p|;
      state := Next(state, JoinSpec.EnqueueAudio(p));
    }

    /** The part after the wait: the client is gone, or the queue is empty or has room. */
    method EnqueueFile(p: Packet)
      requires Valid() && (!alive || sendStop || FileFits(state, p))
      modifies this
      ensures Valid() && state == Next(old(state), JoinSpec.EnqueueFile(p))
      ensures old(alive) && !old(sendStop) ==> state.file.accepted == old(state.file.accepted) + [p]
    {
      hide Inv;
      StepKeeps(state, JoinSpec.EnqueueFile(p));
      state := Next(state, JoinSpec.EnqueueFile(p));
      if !alive || sendStop {
        return;
      }
      fileQueue := fileQueue + [p];
      fileQueueBytes := fileQueueBytes + |p|;
    }

    /** What the worker takes while it holds the lock. */
    method TakeBatch() returns (batch: seq<Tagged>)
      requires Valid() && state.inHand == []
      modifies this
      ensures Valid() && state == Next(old(state), JoinSpec.TakeBatch) && batch == state.inHand
    {
      hide Inv, Total, Tag;
      StepKeeps(state, JoinSpec.TakeBatch);
      ExactBytes(state);
      if ctrlQueue != [] {
        batch := TakeControl();
      } else {
        batch := TakeRest();
      }
      state := Next(state, JoinSpec.TakeBatch);
    }

    /** All audio, then at most four FFT frames, then at most two file packets. */
    method TakeRest() returns (batch: seq<Tagged>)
      requires audioQueueBytes == Total(audioQueue) && sendQueueBytes == Total(sendQueue)
      requires fileQueueBytes == Total(fileQueue)
      modifies this`audioQueue, this`audioQueueBytes, this`sendQueue, this`sendQueueBytes
      modifies this`fileQueue, this`fileQueueBytes
      ensures audioQueue == old(audioQueue)[|old(audioQueue)|..]
      ensures audioQueueBytes == old(audioQueueBytes) - Total(old(audioQueue)[..|old(audioQueue)|])
      ensures var f := AtMost(old(sendQueue), FFT_PER_BATCH);
              sendQueue == old(sendQueue)[f..] && sendQueueBytes == old(sendQueueBytes) - Total(old(sendQueue)[..f])
      ensures var m := AtMost(old(fileQueue), FILE_PER_BATCH);
              fileQueue == old(fileQueue)[m..] && fileQueueBytes == old(fileQueueBytes) - Total(old(fileQueue)[..m])
      ensures batch == Tag(Audio, old(audioQueue)) + Tag(Fft, old(sendQueue)[..AtMost(old(sendQueue), FFT_PER_BATCH)])
                       + Tag(File, old(fileQueue)[..AtMost(old(fileQueue), FILE_PER_BATCH)])
    {
      hide Total, Tag;
      batch := [];
      audioQueue, audioQueueBytes, batch := MoveOut(audioQueue, audioQueueBytes, |audioQueue|, Audio, batch);
      assert old(audioQueue)[..|old(audioQueue)|] == old(audioQueue);
      assert [] + Tag(Audio, old(audioQueue)) == Tag(Audio, old(audioQueue));
      sendQueue, sendQueueBytes, batch := MoveOut(sendQueue, sendQueueBytes, FFT_PER_BATCH, Fft, batch);
      fileQueue, fileQueueBytes, batch := MoveOut(fileQueue, fileQueueBytes, FILE_PER_BATCH, File, batch);
    }

    method TakeControl() returns (batch: seq<Tagged>)
      modifies this`ctrlQueue
      ensures ctrlQueue == [] && batch == Tag(Ctrl, old(ctrlQueue))
    {
      batch := [];
      ghost var i := 0;
      while ctrlQueue != []
        invariant 0 <= i <= |old(ctrlQueue)| && ctrlQueue == old(ctrlQueue)[i..]
        invariant batch == Tag(Ctrl, old(ctrlQueue)[..i])
        decreases |ctrlQueue|
      {
        batch := batch + [Tagged(Ctrl, ctrlQueue[0])];
        ctrlQueue := ctrlQueue[1..];
        i := i + 1;
      }
      assert old(ctrlQueue)[..i] == old(ctrlQueue);
    }

    /** One packet of the batch: sent, or the link has failed on it or before it. */
    method SendRaw(ok: bool)
      requires Valid() && state.inHand != []
      modifies this
      ensures Valid() && state == Next(old(state), SendNext(ok))
    {
      hide Inv;
      StepKeeps(state, SendNext(ok));
      state := Next(state, SendNext(ok));
      if alive && !ok {
        alive := false;
      }
    }

    method StopSendWorker()
      requires Valid()
      modifies this
      ensures Valid() && state == Next(old(state), Stop)
    {
      hide Inv;
      StepKeeps(state, Stop);
      sendStop := true;
      state := Next(state, Stop);
    }
  }

  lemma ExactBytes(s: State)
    requires Inv(s)
    ensures s.audio.bytes == Total(s.audio.queue) && s.fft.bytes == Total(s.fft.queue)
    ensures s.file.bytes == Total(s.file.queue)
  {
  }
}
