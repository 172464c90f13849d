/** The builders as they run: one walk over the log, then one pass over the vessels. */
module AisBuilder {
  import opened Prelude
  import opened LittleEndian
  import opened AisLog
  import opened AisSummary

  const WINDOW_MS: int := 600000

  /** One stored record at an offset, or the end of what can be read. */
  method Next(body: seq<Byte>, off: nat) returns (more: bool, next: nat, got: seq<Rec>)
    requires off <= |body|
    ensures more ==> off < next <= |body| && Records(body[off..]) == got + Records(body[next..]) && |got| <= 1
    ensures more ==> forall r :: r in got ==> Mmsi(r) != 0
    ensures !more ==> Records(body[off..]) == []
  {
    hide Mmsi, Le;
    var rest := body[off..];
    if off + 4 > |body| {
      return false, off, [];
    }
    var n := Le(rest[..4]);
    if off + 4 + n > |body| {
      return false, off, [];
    }
    assert rest[4 + n..] == body[off + 4 + n..];
    got := [];
    var s := rest[4..4 + n];
    if n >= PREFIX {
      var r := Parsed(s);
      if Mmsi(r) != 0 {
        got := [r];
      }
    }
    return true, off + 4 + n, got;
  }

  /** The full history of one vessel. */
  method BuildVessel(body: seq<Byte>, key: nat) returns (out: seq<Byte>)
    ensures out == Vessel(body, key)
  {
    hide Records, Mmsi, Stored, OfVessel, EmitAll;
    out := [];
    var off := 0;
    ghost var done: seq<Rec> := [];
    assert body[0..] == body;
    NoneOfVessel(key);
    EmitNone();
    while true
      invariant 0 <= off <= |body| && Records(body) == done + Records(body[off..])
      invariant out == EmitAll(OfVessel(done, key))
      decreases |body| - off
    {
      var more, next, got := Next(body, off);
      if !more {
        assert done + [] == done;
        break;
      }
      if got != [] {
        OfVesselNext(done, got[0], key);
        if Mmsi(got[0]) == key {
          EmitAppend(OfVessel(done, key), [got[0]]);
          EmitOne(got[0]);
          out := out + Stored(got[0]);
        } else {
          assert OfVessel(done, key) + [] == OfVessel(done, key);
        }
        assert got == [got[0]];
        done := done + [got[0]];
      }
      assert done + Records(body[next..]) == Records(body);
      off := next;
    }
  }

  lemma EmitNone()
    ensures EmitAll([]) == []
  {
  }

  // -------------------------------------------------------------- summary

  /** What has been gathered per vessel is what each vessel's records gather to. */
  ghost predicate Gathered(per: map<int, Agg>, done: seq<Rec>, cutoff: int) {
    && per.Keys == Mmsis(done)
    && forall m :: m in per ==> m >= 0 && per[m] == AggOf(OfVessel(done, m), cutoff)
  }

  lemma {:induction false} GatherNext(per: map<int, Agg>, done: seq<Rec>, cutoff: int, r: Rec)
    requires Gathered(per, done, cutoff)
    ensures var a := if Mmsi(r) in per then per[Mmsi(r)] else EmptyAgg();
            Gathered(per[Mmsi(r) := AddTo(a, r, cutoff)], done + [r], cutoff)
  {
    hide Mmsi, OfVessel, AddTo;
    var k := Mmsi(r);
    var a := if k in per then per[k] else EmptyAgg();
    var next := per[k := AddTo(a, r, cutoff)];
    MmsisNext(done, r);
    if k !in per {
      NoRecordsOf(done, k);
    }
    forall m | m in next
      ensures m >= 0 && next[m] == AggOf(OfVessel(done + [r], m), cutoff)
    {
      if m == k {
        OfVesselNext(done, r, k);
        var rs := OfVessel(done, k);
        assert (rs + [r])[..|rs|] == rs;
      } else {
        OfVesselNext(done, r, m);
        assert OfVessel(done, m) + [] == OfVessel(done, m);
      }
    }
  }

  lemma MmsisNext(done: seq<Rec>, r: Rec)
    ensures Mmsis(done + [r]) == Mmsis(done) + {Mmsi(r)}
  {
    hide Mmsi;
    assert forall q :: q in done + [r] <==> q in done || q == r;
  }

  lemma {:induction false} NoRecordsOf(done: seq<Rec>, k: nat)
    requires k !in Mmsis(done)
    ensures OfVessel(done, k) == []
    decreases |done|
  {
    hide Mmsi;
    if done != [] {
      var n := |done| - 1;
      assert done == done[..n] + [done[n]];
      MmsisNext(done[..n], done[n]);
      NoRecordsOf(done[..n], k);
    }
  }

  method Gather(body: seq<Byte>, cutoff: int) returns (per: map<int, Agg>)
    ensures Gathered(per, Records(body), cutoff)
  {
    hide Records, Mmsi, OfVessel, AddTo, Gathered;
    per := map[];
    var off := 0;
    ghost var done: seq<Rec> := [];
    assert body[0..] == body;
    GatheredNone(cutoff);
    while true
      invariant 0 <= off <= |body| && Records(body) == done + Records(body[off..])
      invariant Gathered(per, done, cutoff)
      decreases |body| - off
    {
      var more, next, got := Next(body, off);
      if !more {
        assert done + [] == done;
        break;
      }
      if got != [] {
        var r := got[0];
        GatherNext(per, done, cutoff, r);
        var a := if Mmsi(r) in per then per[Mmsi(r)] else EmptyAgg();
        per := per[Mmsi(r) := AddTo(a, r, cutoff)];
        assert got == [r];
        done := done + [r];
      }
      assert done + Records(body[next..]) == Records(body);
      off := next;
    }
  }

  lemma GatheredNone(cutoff: int)
    ensures Gathered(map[], [], cutoff)
  {
  }

  /** The keys of an ordered map, in order. */
  method InOrder(s: set<int>) returns (ts: seq<int>)
    ensures ts == Ascending(s)
  {
    hide Ascending;
    ts := [];
    var rest := s;
    assert Ascending(s) + [] == Ascending(s);
    AscendingNone();
    while rest != {}
      invariant Ascending(s) == Ascending(rest) + ts
      decreases |rest|
    {
      var m := Largest(rest);
      AscendingStep(rest, m);
      ghost var front := Ascending(rest - {m});
      assert front + [m] + ts == front + ([m] + ts);
      rest := rest - {m};
      ts := [m] + ts;
    }
  }

  method Largest(s: set<int>) returns (m: int)
    requires s != {}
    ensures m in s && forall x :: x in s ==> x <= m
  {
    assert (forall k :: k !in s) ==> s == {};
    m :| m in s;
    var rest := s - {m};
    while rest != {}
      invariant m in s && rest <= s && forall x :: x in s && x !in rest ==> x <= m
      decreases |rest|
    {
      assert (forall k :: k !in rest) ==> rest == {};
      var k :| k in rest;
      if k > m {
        m := k;
      }
      rest := rest - {k};
    }
  }

  method Mark(em: map<int, Rec>, ts: seq<int>, n: nat) returns (rs: seq<Rec>)
    requires forall i :: 0 <= i < |ts| ==> ts[i] in em
    ensures rs == MarkAll(em, ts, n)
  {
    hide WithRxCount;
    rs := [];
    var i := 0;
    while i < |ts|
      invariant 0 <= i == |rs| <= |ts|
      invariant forall k :: 0 <= k < i ==> rs[k] == Marked(em[ts[k]], k == 0, n)
    {
      var r := em[ts[i]];
      if i == 0 {
        r := WithRxCount(r, n);
      }
      rs := rs + [r];
      i := i + 1;
    }
  }

  /** One vessel's entries in time order, the first with the count. */
  method EmitVessel(a: Agg) returns (rs: seq<Rec>)
    ensures rs == VesselEntries(a)
  {
    hide Entries, Ascending, MarkAll;
    var em := Entries(a);
    AscendingHas(em.Keys);
    var ts := InOrder(em.Keys);
    rs := Mark(em, ts, a.cnt);
  }

  lemma GatheredEntry(per: map<int, Agg>, rs: seq<Rec>, cutoff: int, m: int)
    requires Gathered(per, rs, cutoff) && m in per
    ensures Entry(rs, m, cutoff) == VesselEntries(per[m])
  {
    assert per[m] == AggOf(OfVessel(rs, m), cutoff);
  }

  method BuildSummary(body: seq<Byte>, nowMs: int) returns (out: seq<Byte>)
    ensures out == Summary(body, nowMs - 600000)
  {
    hide Records, VesselEntries, Gathered, EmitAll, Mmsis, Ascending, SummaryOver, Entry;
    var cutoff := nowMs - WINDOW_MS;
    var per := Gather(body, cutoff);
    ghost var rs := Records(body);
    GatheredKeys(per, rs, cutoff);
    AscendingHas(per.Keys);
    var ms := InOrder(per.Keys);
    out := [];
    var i := 0;
    EmitNone();
    SummaryNone(ms, rs, cutoff);
    while i < |ms|
      invariant 0 <= i <= |ms| && out == EmitAll(SummaryOver(ms[..i], rs, cutoff))
    {
      GatheredEntry(per, rs, cutoff, ms[i]);
      var es := EmitVessel(per[ms[i]]);
      SummaryOverNext(ms, i, rs, cutoff);
      EmitAppend(SummaryOver(ms[..i], rs, cutoff), es);
      var text := EmitRecords(es);
      out := out + text;
      i := i + 1;
    }
    assert ms[..i] == ms;
  }

  lemma GatheredKeys(per: map<int, Agg>, rs: seq<Rec>, cutoff: int)
    requires Gathered(per, rs, cutoff)
    ensures per.Keys == Mmsis(rs)
  {
    hide Mmsis;
  }

  lemma SummaryNone(ms: seq<int>, rs: seq<Rec>, cutoff: int)
    ensures SummaryOver(ms[..0], rs, cutoff) == []
  {
  }

  method EmitRecords(rs: seq<Rec>) returns (out: seq<Byte>)
    ensures out == EmitAll(rs)
  {
    hide Stored;
    out := [];
    var i := 0;
    while i < |rs|
      invariant 0 <= i <= |rs| && out == EmitAll(rs[..i])
    {
      assert rs[..i + 1][..i] == rs[..i];
      out := out + Stored(rs[i]);
      i := i + 1;
    }
    assert rs[..i] == rs;
  }
}
