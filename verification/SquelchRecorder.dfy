/**
 * Squelch-gated recording: audio and IQ samples go through a staging buffer into a file while the
 * gate is open and for a while after it closes.
 */
module SquelchRecorder {

  const REC_BUF_FRAMES: nat := 2048

  /** C truncation of a real toward zero. */
  function Trunc(v: real): int {
    if v >= 0.0 then v.Floor else -((-v).Floor)
  }

  /** A float sample as a 16-bit one. */
  function Quantised(v: real): (q: int)
    ensures -32767 <= q <= 32767
    ensures 0.0 <= v <= 1.0 ==> 0.0 <= v * 32767.0 - q as real < 1.0
    ensures -1.0 <= v <= 0.0 ==> -1.0 < v * 32767.0 - q as real <= 0.0
    ensures v < -1.0 ==> q == -32767
    ensures v > 1.0 ==> q == 32767
  {
    if v < -1.0 then -32767
    else if v > 1.0 then 32767
    else Trunc(v * 32767.0)
  }

  // ------------------------------------------------------- the gate alone

  /** The gate was open at the last sample or at one of the sr + 1 samples before it. */
  ghost predicate Near(gates: seq<bool>, sr: nat) {
    exists j :: 0 <= j < |gates| && |gates| - 2 - sr <= j && gates[j]
  }

  datatype Gap = Never | Closed(n: nat)

  /** How many samples ago the gate was last open. */
  function Since(gates: seq<bool>): (g: Gap)
    ensures g.Closed? ==>
              && g.n < |gates| && gates[|gates| - 1 - g.n]
              && forall j :: |gates| - 1 - g.n < j < |gates| ==> !gates[j]
    ensures g.Never? ==> forall j :: 0 <= j < |gates| ==> !gates[j]
  {
    if gates == [] then Never
    else if gates[|gates| - 1] then Closed(0)
    else match Since(gates[..|gates| - 1])
      case Never => Never
      case Closed(n) => Closed(n + 1)
  }

  lemma NearIsSince(gates: seq<bool>, sr: nat)
    ensures Near(gates, sr) <==> Since(gates).Closed? && Since(gates).n <= sr + 1
  {
    hide Since;
    var g := Since(gates);
    if g.Closed? && g.n <= sr + 1 {
      assert gates[|gates| - 1 - g.n];
    }
  }

  lemma SinceNext(gates: seq<bool>, open: bool)
    ensures Since(gates + [open])
         == if open then Closed(0) else match Since(gates) { case Never => Never case Closed(n) => Closed(n + 1) }
  {
    assert (gates + [open])[..|gates|] == gates;
  }

  datatype SqRecState = SqrIdle | SqrRecording | SqrTail

  /** What the state machine remembers of the gate. */
  ghost predicate Remembers(state: SqRecState, remain: nat, gates: seq<bool>, sr: nat) {
    match Since(gates)
    case Never => state == SqrIdle
    case Closed(n) =>
      if n == 0 then state == SqrRecording
      else if n <= sr + 1 then state == SqrTail && remain == sr + 1 - n
      else state == SqrIdle
  }

  // ---------------------------------------------------- how much is kept

  /** The number of samples kept. */
  ghost function Count(gates: seq<bool>, sr: nat): nat {
    if gates == [] then 0 else Count(gates[..|gates| - 1], sr) + (if Near(gates, sr) then 1 else 0)
  }

  function ClosedFor(n: nat): (s: seq<bool>)
    ensures |s| == n
  {
    seq(n, _ => false)
  }

  /** After an opening, a closed stretch of n samples adds the first min(n, sr + 1) of them. */
  lemma {:induction false} ClosedStretch(gates: seq<bool>, n: nat, sr: nat)
    requires gates != [] && gates[|gates| - 1]
    ensures Since(gates + ClosedFor(n)) == Closed(n)
    ensures Count(gates + ClosedFor(n), sr) == Count(gates, sr) + if n <= sr + 1 then n else sr + 1
    decreases n
  {
    hide Near, Since, Count;
    if n == 0 {
      assert gates + ClosedFor(0) == gates;
      LastOpen(gates);
    } else {
      ClosedStretch(gates, n - 1, sr);
      var g := gates + ClosedFor(n - 1);
      assert gates + ClosedFor(n) == g + [false];
      SinceNext(g, false);
      NearIsSince(g + [false], sr);
      CountNext(g, false, sr);
    }
  }

  lemma LastOpen(gates: seq<bool>)
    requires gates != [] && gates[|gates| - 1]
    ensures Since(gates) == Closed(0)
  {
  }

  lemma CountNext(gates: seq<bool>, open: bool, sr: nat)
    ensures Count(gates + [open], sr) == Count(gates, sr) + if Near(gates + [open], sr) then 1 else 0
  {
    hide Near;
    assert (gates + [open])[..|gates|] == gates;
  }

  /** Every open sample is kept. */
  lemma OpenIsKept(gates: seq<bool>, sr: nat)
    ensures Count(gates + [true], sr) == Count(gates, sr) + 1
  {
    var g := gates + [true];
    assert g[..|gates|] == gates && g[|g| - 1];
  }

  // --------------------------------------------------------------- audio

  datatype Heard = Heard(out: real, gate: bool)

  function Gates(seen: seq<Heard>): (gs: seq<bool>)
    ensures |gs| == |seen| && forall i :: 0 <= i < |seen| ==> gs[i] == seen[i].gate
  {
    if seen == [] then [] else Gates(seen[..|seen| - 1]) + [seen[|seen| - 1].gate]
  }

  /** The samples a recording consists of. */
  ghost function Kept(seen: seq<Heard>, sr: nat): seq<int> {
    if seen == [] then []
    else Kept(seen[..|seen| - 1], sr) + if Near(Gates(seen), sr) then [Quantised(seen[|seen| - 1].out)] else []
  }

  lemma {:induction false} KeptCounts(seen: seq<Heard>, sr: nat)
    ensures |Kept(seen, sr)| == Count(Gates(seen), sr)
    decreases |seen|
  {
    hide Near, Quantised;
    if seen != [] {
      KeptCounts(seen[..|seen| - 1], sr);
      assert Gates(seen)[..|seen| - 1] == Gates(seen[..|seen| - 1]);
    }
  }

  lemma KeptNext(seen: seq<Heard>, x: Heard, sr: nat)
    ensures Gates(seen + [x]) == Gates(seen) + [x.gate]
    ensures Kept(seen + [x], sr) == Kept(seen, sr) + if Near(Gates(seen) + [x.gate], sr) then [Quantised(x.out)] else []
  {
    hide Near, Quantised;
    assert (seen + [x])[..|seen|] == seen;
  }

  /** One sample of the state machine. */
  lemma GateStep(state: SqRecState, remain: nat, gates: seq<bool>, sr: nat, open: bool)
    requires Remembers(state, remain, gates, sr)
    ensures var g := gates + [open];
            && (state == SqrIdle ==> (Near(g, sr) <==> open))
            && (state == SqrRecording ==> Near(g, sr))
            && (state == SqrTail ==> (Near(g, sr) <==> open || remain > 0))
    ensures open ==> Remembers(SqrRecording, remain, gates + [open], sr)
    ensures !open && state == SqrIdle ==> Remembers(SqrIdle, remain, gates + [open], sr)
    ensures !open && state == SqrRecording ==> Remembers(SqrTail, sr, gates + [open], sr)
    ensures !open && state == SqrTail ==>
      if remain == 0 then Remembers(SqrIdle, remain, gates + [open], sr)
      else Remembers(SqrTail, remain - 1, gates + [open], sr)
  {
    hide Near, Since;
    NearIsSince(gates + [open], sr);
    SinceNext(gates, open);
  }

  class AudioRecorder {
    var on: bool
    var paused: bool
    var open: bool
    var file: seq<int>
    var frames: nat
    var sr: nat
    var buf: seq<int>
    var sqrState: SqRecState
    var tailRemain: nat
    /** Everything heard while recording. */
    ghost var seen: seq<Heard>

    ghost predicate Valid()
      reads this
    {
      && file + buf == Kept(seen, sr) && frames == |file| + |buf| && |buf| < REC_BUF_FRAMES
      && Remembers(sqrState, tailRemain, Gates(seen), sr)
    }

    constructor (rate: nat)
      ensures Valid() && seen == [] && on && open && !paused && sr == rate
    {
      on, paused, open, file, frames, sr, buf, sqrState, tailRemain := true, false, true, [], 0, rate, [], SqrIdle, 0;
      seen := [];
    }

    method MaybeRecAudio(out: real, gateOpen: bool)
      requires Valid()
      modifies this
      ensures Valid() && on == old(on) && open == old(open) && paused == old(paused) && sr == old(sr)
      ensures seen == if on && open && !paused then old(seen) + [Heard(out, gateOpen)] else old(seen)
    {
      hide Kept, Remembers, Quantised, Near, Gates;
      if !on || !open || paused {
        return;
      }
      KeptNext(seen, Heard(out, gateOpen), sr);
      GateStep(sqrState, tailRemain, Gates(seen), sr, gateOpen);
      seen := seen + [Heard(out, gateOpen)];
      match sqrState {
        case SqrIdle =>
          if !gateOpen {
            return;
          }
          sqrState := SqrRecording;
        case SqrRecording =>
          if !gateOpen {
            sqrState := SqrTail;
            tailRemain := sr;
          }
        case SqrTail =>
          if gateOpen {
            sqrState := SqrRecording;
          } else if tailRemain == 0 {
            sqrState := SqrIdle;
            return;
          } else {
            tailRemain := tailRemain - 1;
          }
      }
      Stage(Quantised(out));
    }

    /** One frame goes to the staging buffer, and a full buffer to the file. */
    method Stage(v: int)
      requires frames == |file| + |buf| && |buf| < REC_BUF_FRAMES
      modifies this`file, this`buf, this`frames
      ensures file + buf == old(file + buf) + [v] && frames == old(frames) + 1
      ensures frames == |file| + |buf| && |buf| < 2048 && (buf == [] <==> old(|buf|) == 2047)
    {
      buf := buf + [v];
      frames := frames + 1;
      if |buf| >= REC_BUF_FRAMES {
        file := file + buf;
        buf := [];
      }
    }

    /** What is staged goes to the file; nothing is lost. */
    method Drain()
      requires Valid() && open
      modifies this
      ensures Valid() && buf == [] && file == Kept(seen, sr) && frames == |file|
      ensures seen == old(seen) && on == old(on) && open && paused == old(paused) && sr == old(sr)
    {
      hide Kept, KeptIq, Gates, GatesIq, Near, Remembers;
      if buf != [] {
        file := file + buf;
      }
      buf := [];
      assert file + [] == file;
    }
  }

  // ------------------------------------------------------------------ IQ

  datatype Sample = Sample(fi: real, fq: real, gate: bool, force: bool)

  /** Forced samples pass the state machine by. */
  function GatesIq(seen: seq<Sample>): seq<bool> {
    if seen == [] then []
    else
      var x := seen[|seen| - 1];
      GatesIq(seen[..|seen| - 1]) + if x.force then [] else [x.gate]
  }

  /** What one sample adds after others: itself while forced or open, silence in the tail, nothing else. */
  ghost function Adds(gates: seq<bool>, x: Sample, sr: nat): seq<int> {
    if x.force || x.gate then [Quantised(x.fi), Quantised(x.fq)]
    else if Near(gates + [x.gate], sr) then [0, 0]
    else []
  }

  /** The tail that is silence: the gate was open at one of the sr + 1 samples before this one. */
  lemma {:induction false} AddsIs(gates: seq<bool>, x: Sample, sr: nat)
    ensures x.force || x.gate ==> Adds(gates, x, sr) == [Quantised(x.fi), Quantised(x.fq)]
    ensures !x.force && !x.gate ==>
              Adds(gates, x, sr) ==
                if exists j :: 0 <= j < |gates| && |gates| - 1 - sr <= j && gates[j] then [0, 0] else []
  {
    hide Quantised;
    var all := gates + [x.gate];
    assert forall j :: 0 <= j < |gates| ==> all[j] == gates[j];
  }

  ghost function KeptIq(seen: seq<Sample>, sr: nat): (s: seq<int>)
    ensures |s| % 2 == 0
  {
    if seen == [] then []
    else KeptIq(seen[..|seen| - 1], sr) + Adds(GatesIq(seen[..|seen| - 1]), seen[|seen| - 1], sr)
  }

  lemma KeptIqNext(seen: seq<Sample>, x: Sample, sr: nat)
    ensures GatesIq(seen + [x]) == if x.force then GatesIq(seen) else GatesIq(seen) + [x.gate]
    ensures KeptIq(seen + [x], sr) == KeptIq(seen, sr) + Adds(GatesIq(seen), x, sr)
  {
    hide Adds;
    assert (seen + [x])[..|seen|] == seen;
  }

  /** Without forcing, the frames are as many as the gate alone decides. */
  lemma {:induction false} KeptIqCounts(seen: seq<Sample>, sr: nat)
    requires forall i :: 0 <= i < |seen| ==> !seen[i].force
    ensures |KeptIq(seen, sr)| == 2 * Count(GatesIq(seen), sr)
    decreases |seen|
  {
    hide Near, Quantised;
    if seen != [] {
      var front, x := seen[..|seen| - 1], seen[|seen| - 1];
      KeptIqCounts(front, sr);
      var gs := GatesIq(front) + [x.gate];
      assert gs[..|gs| - 1] == GatesIq(front);
      if x.gate {
        OpenIsKept(GatesIq(front), sr);
      }
    }
  }

  /** Forced throughout, every sample is kept as it is. */
  lemma {:induction false} ForcedKeepsAll(seen: seq<Sample>, sr: nat)
    requires forall i :: 0 <= i < |seen| ==> seen[i].force
    ensures |KeptIq(seen, sr)| == 2 * |seen|
    ensures forall i :: 0 <= i < |seen| ==>
      KeptIq(seen, sr)[2 * i] == Quantised(seen[i].fi) && KeptIq(seen, sr)[2 * i + 1] == Quantised(seen[i].fq)
    decreases |seen|
  {
    hide Near, Quantised;
    if seen != [] {
      ForcedKeepsAll(seen[..|seen| - 1], sr);
    }
  }

  class IqRecorder {
    var on: bool
    var paused: bool
    var open: bool
    var forceAll: bool
    var file: seq<int>
    var buf: seq<int>
    var frames: nat
    var sr: nat
    var sqrState: SqRecState
    var tailRemain: nat
    ghost var seen: seq<Sample>

    ghost predicate Valid()
      reads this
    {
      && file + buf == KeptIq(seen, sr) && 2 * frames == |file| + |buf| && |buf| < 2 * REC_BUF_FRAMES
      && (frames % 0x1_0000 == 0 ==> buf == [])
      && Remembers(sqrState, tailRemain, GatesIq(seen), sr)
    }

    constructor (rate: nat, force: bool)
      ensures Valid() && seen == [] && on && open && !paused && sr == rate && forceAll == force
    {
      on, paused, open, forceAll := true, false, true, force;
      file, buf, frames, sr, sqrState, tailRemain := [], [], 0, rate, SqrIdle, 0;
      seen := [];
    }

    /** The gate part: whether the sample is written, and whether as silence. */
    method StepGate(gateOpen: bool) returns (write: bool, silence: bool)
      requires Remembers(sqrState, tailRemain, GatesIq(seen), sr)
      modifies this`sqrState, this`tailRemain
      ensures Remembers(sqrState, tailRemain, GatesIq(seen) + [gateOpen], sr)
      ensures write == Near(GatesIq(seen) + [gateOpen], sr) && (write ==> silence == !gateOpen)
    {
      hide Remembers, Near, GatesIq;
      GateStep(sqrState, tailRemain, GatesIq(seen), sr, gateOpen);
      write, silence := true, false;
      match sqrState {
        case SqrIdle =>
          if !gateOpen {
            return false, false;
          }
          sqrState := SqrRecording;
        case SqrRecording =>
          if !gateOpen {
            sqrState := SqrTail;
            tailRemain := sr;
            silence := true;
          }
        case SqrTail =>
          if gateOpen {
            sqrState := SqrRecording;
          } else if tailRemain == 0 {
            sqrState := SqrIdle;
            return false, false;
          } else {
            tailRemain := tailRemain - 1;
            silence := true;
          }
      }
    }

    method MaybeRecIq(fi: real, fq: real, gateOpen: bool)
      requires Valid()
      modifies this
      ensures Valid() && on == old(on) && open == old(open) && paused == old(paused)
      ensures sr == old(sr) && forceAll == old(forceAll)
      ensures seen == if on && open && !paused then old(seen) + [Sample(fi, fq, gateOpen, forceAll)] else old(seen)
    {
      hide KeptIq, Remembers, Quantised, Near, GatesIq;
      if !on || !open || paused {
        return;
      }
      ghost var x := Sample(fi, fq, gateOpen, forceAll);
      KeptIqNext(seen, x, sr);
      OpenIsNear(GatesIq(seen), gateOpen, sr);
      var write, silence := true, false;
      if !forceAll {
        write, silence := StepGate(gateOpen);
      }
      assert Adds(GatesIq(seen), x, sr)
          == if write then (if silence then [0, 0] else [Quantised(fi), Quantised(fq)]) else [];
      assert Remembers(sqrState, tailRemain, GatesIq(seen + [x]), sr);
      seen := seen + [x];
      if !write {
        return;
      }
      var si := if silence then 0 else Quantised(fi);
      var sq := if silence then 0 else Quantised(fq);
      Stage(si, sq);
    }

    /** One frame goes to the staging buffer, and a full buffer to the file. */
    method Stage(si: int, sq: int)
      requires 2 * frames == |file| + |buf| && |buf| < 2 * REC_BUF_FRAMES
      modifies this`file, this`buf, this`frames
      ensures file + buf == old(file + buf) + [si, sq] && frames == old(frames) + 1
      ensures 2 * frames == |file| + |buf| && |buf| < 4096
      ensures buf == [] <==> old(|buf|) >= 4094 || frames % 65536 == 0
    {
      buf := buf + [si, sq];
      frames := frames + 1;
      var flushDue := frames % 0x1_0000 == 0;
      if |buf| >= REC_BUF_FRAMES * 2 || flushDue {
        file := file + buf;
        buf := [];
      }
    }

    method Drain()
      requires Valid() && open
      modifies this
      ensures Valid() && buf == [] && file == KeptIq(seen, sr) && 2 * frames == |file|
      ensures seen == old(seen) && on == old(on) && open && paused == old(paused)
      ensures sr == old(sr) && forceAll == old(forceAll)
    {
      hide Kept, KeptIq, Gates, GatesIq, Near, Remembers;
      if buf != [] {
        file := file + buf;
      }
      buf := [];
      assert file + [] == file;
    }
  }

  lemma OpenIsNear(gates: seq<bool>, open: bool, sr: nat)
    ensures open ==> Near(gates + [open], sr)
  {
    if open {
      assert (gates + [open])[|gates|];
    }
  }
}
