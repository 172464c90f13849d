/**
 * The per-vessel summary of an AIS log: the first record, the latest with a position, the latest with
 * a name, and everything since a cutoff.
 */
module AisSummary {
  import opened Prelude
  import opened LittleEndian
  import opened AisLog

  const INT64_MAX: int := 0x7FFF_FFFF_FFFF_FFFF

  datatype Kind = Position | Name

  predicate Has(kind: Kind, r: Rec) {
    match kind
    case Position => HasPos(r)
    case Name => HasName(r)
  }

  // ---------------------------------------------------------- accumulating

  /** The latest record of a kind so far. */
  datatype Latest = Latest(t: int, rec: Option<Rec>)

  datatype Agg = Agg(win: map<int, Rec>, firstT: int, first: Option<Rec>, pos: Latest, name: Latest, cnt: nat)

  function EmptyAgg(): Agg {
    Agg(map[], INT64_MAX, None, Latest(-1, None), Latest(-1, None), 0)
  }

  function Newer(l: Latest, kind: Kind, r: Rec): Latest {
    if Has(kind, r) && Time(r) > l.t then Latest(Time(r), Some(r)) else l
  }

  function AddTo(a: Agg, r: Rec, cutoff: int): Agg {
    Agg(if Time(r) >= cutoff then a.win[Time(r) := r] else a.win,
        if Time(r) < a.firstT then Time(r) else a.firstT,
        if Time(r) < a.firstT then Some(r) else a.first,
        Newer(a.pos, Position, r), Newer(a.name, Name, r), a.cnt + 1)
  }

  function AggOf(rs: seq<Rec>, cutoff: int): Agg {
    if rs == [] then EmptyAgg() else AddTo(AggOf(rs[..|rs| - 1], cutoff), rs[|rs| - 1], cutoff)
  }

  function LatestOf(rs: seq<Rec>, kind: Kind): Latest {
    if rs == [] then Latest(-1, None) else Newer(LatestOf(rs[..|rs| - 1], kind), kind, rs[|rs| - 1])
  }

  lemma {:induction false} AggParts(rs: seq<Rec>, cutoff: int)
    ensures AggOf(rs, cutoff).pos == LatestOf(rs, Position) && AggOf(rs, cutoff).name == LatestOf(rs, Name)
    ensures AggOf(rs, cutoff).cnt == |rs|
    decreases |rs|
  {
    hide Time, Has;
    if rs != [] {
      AggParts(rs[..|rs| - 1], cutoff);
    }
  }

  // ------------------------------------------------- what is accumulated

  /** A record of the list made since the cutoff, at time t. */
  ghost predicate InWindow(rs: seq<Rec>, cutoff: int, t: int) {
    t >= cutoff && exists i :: 0 <= i < |rs| && Time(rs[i]) == t
  }

  /** r is the last record of the list at its time. */
  ghost predicate LastAt(rs: seq<Rec>, t: int, r: Rec) {
    exists i :: 0 <= i < |rs| && rs[i] == r && Time(rs[i]) == t && forall j :: i < j < |rs| ==> Time(rs[j]) != t
  }

  lemma {:induction false} WindowOf(rs: seq<Rec>, cutoff: int, t: int)
    ensures t in AggOf(rs, cutoff).win <==> InWindow(rs, cutoff, t)
    ensures t in AggOf(rs, cutoff).win ==> LastAt(rs, t, AggOf(rs, cutoff).win[t])
    decreases |rs|
  {
    hide Time, Newer;
    if rs != [] {
      var n := |rs| - 1;
      var front := rs[..n];
      WindowOf(front, cutoff, t);
      assert forall i :: 0 <= i < n ==> rs[i] == front[i];
      assert InWindow(rs, cutoff, t) <==> InWindow(front, cutoff, t) || (t >= cutoff && Time(rs[n]) == t);
      var a := AggOf(front, cutoff);
      if t >= cutoff && Time(rs[n]) == t {
        assert LastAt(rs, t, rs[n]);
      } else if t in a.win {
        StillLast(rs, t, a.win[t]);
      }
    }
  }

  lemma StillLast(rs: seq<Rec>, t: int, r: Rec)
    requires rs != [] && LastAt(rs[..|rs| - 1], t, r) && Time(rs[|rs| - 1]) != t
    ensures LastAt(rs, t, r)
  {
    hide Time;
    var n := |rs| - 1;
    var front := rs[..n];
    var i :| 0 <= i < n && front[i] == r && Time(front[i]) == t && forall j :: i < j < n ==> Time(front[j]) != t;
    assert rs[i] == r;
    assert forall j :: i < j < |rs| ==> j == n || rs[j] == front[j];
  }

  ghost predicate IsFirst(rs: seq<Rec>, t: int) {
    (exists i :: 0 <= i < |rs| && Time(rs[i]) == t) && forall j :: 0 <= j < |rs| ==> t <= Time(rs[j])
  }

  lemma {:induction false} FirstOf(rs: seq<Rec>, cutoff: int)
    ensures var a := AggOf(rs, cutoff);
            && (forall j :: 0 <= j < |rs| ==> a.firstT <= Time(rs[j]))
            && (a.first == None ==> a.firstT == INT64_MAX)
            && (a.first.Some? ==> a.first.value in rs && Time(a.first.value) == a.firstT)
    decreases |rs|
  {
    hide Newer;
    if rs != [] {
      var n := |rs| - 1;
      FirstOf(rs[..n], cutoff);
      TimeBound(rs[n]);
      hide Time;
      assert forall j :: 0 <= j < n ==> rs[j] == rs[..n][j];
      assert rs == rs[..n] + [rs[n]];
    }
  }

  lemma TimeBound(r: Rec)
    ensures Time(r) <= INT64_MAX
  {
    var s := r[PREFIX..PREFIX + 8];
    LeBound(s);
    Powers();
  }

  lemma {:induction false} LeBound(s: seq<Byte>)
    ensures Le(s) < Pow256(|s|)
    decreases |s|
  {
    if s != [] {
      LeBound(s[1..]);
    }
  }

  /** t is the greatest time, not before 1970, of a record of a kind. */
  ghost predicate IsLatest(rs: seq<Rec>, kind: Kind, t: int) {
    && t >= 0 && (exists i :: 0 <= i < |rs| && Has(kind, rs[i]) && Time(rs[i]) == t)
    && forall j :: 0 <= j < |rs| && Has(kind, rs[j]) ==> Time(rs[j]) <= t
  }

  lemma {:induction false} LatestIs(rs: seq<Rec>, kind: Kind)
    ensures var l := LatestOf(rs, kind);
            && (forall j :: 0 <= j < |rs| && Has(kind, rs[j]) ==> Time(rs[j]) <= l.t)
            && (l.rec == None ==> l.t == -1)
            && (l.rec.Some? ==> l.rec.value in rs && Time(l.rec.value) == l.t && Has(kind, l.rec.value) && l.t >= 0)
    decreases |rs|
  {
    hide Time, Has;
    if rs != [] {
      var n := |rs| - 1;
      LatestIs(rs[..n], kind);
      assert forall j :: 0 <= j < n ==> rs[j] == rs[..n][j];
      assert rs == rs[..n] + [rs[n]];
    }
  }

  lemma LatestExactly(rs: seq<Rec>, kind: Kind, t: int)
    ensures LatestOf(rs, kind).rec.Some? && LatestOf(rs, kind).t == t <==> IsLatest(rs, kind, t)
  {
    hide Time, Has, LatestOf;
    LatestIs(rs, kind);
    var l := LatestOf(rs, kind);
    if l.rec.Some? {
      var i :| 0 <= i < |rs| && rs[i] == l.rec.value;
    }
  }

  // ------------------------------------------------------ what is emitted

  function Emplace(em: map<int, Rec>, t: int, r: Option<Rec>): map<int, Rec> {
    if r.Some? && t !in em then em[t := r.value] else em
  }

  function Entries(a: Agg): map<int, Rec> {
    Emplace(Emplace(Emplace(a.win, a.firstT, a.first), a.pos.t, a.pos.rec), a.name.t, a.name.rec)
  }

  /** The times emitted for a vessel are the recent ones and those of its three key records, no more. */
  lemma TimesExactly(rs: seq<Rec>, cutoff: int, t: int)
    requires rs != [] && cutoff < 0x8000_0000_0000_0000
    ensures t in Entries(AggOf(rs, cutoff))
       <==> InWindow(rs, cutoff, t) || IsFirst(rs, t) || IsLatest(rs, Position, t) || IsLatest(rs, Name, t)
    ensures t in Entries(AggOf(rs, cutoff)) ==>
      Entries(AggOf(rs, cutoff))[t] in rs && Time(Entries(AggOf(rs, cutoff))[t]) == t
  {
    hide Time, Has, AggOf, LatestOf;
    var a := AggOf(rs, cutoff);
    AggParts(rs, cutoff);
    WindowOf(rs, cutoff, t);
    FirstExactly(rs, cutoff, t);
    LatestExactly(rs, Position, t);
    LatestExactly(rs, Name, t);
    LatestIs(rs, Position);
    LatestIs(rs, Name);
    FirstOf(rs, cutoff);
  }

  /** When every record carries the greatest time there is, the first one is in the window anyway. */
  lemma FirstExactly(rs: seq<Rec>, cutoff: int, t: int)
    requires rs != [] && cutoff < 0x8000_0000_0000_0000
    ensures var a := AggOf(rs, cutoff);
            && (a.first.Some? ==> (a.firstT == t <==> IsFirst(rs, t)))
            && (a.first == None ==> (IsFirst(rs, t) ==> InWindow(rs, cutoff, t)))
  {
    hide AggOf;
    var a := AggOf(rs, cutoff);
    FirstOf(rs, cutoff);
    TimeBound(rs[0]);
    hide Time;
    if a.first.Some? {
      var i :| 0 <= i < |rs| && rs[i] == a.first.value;
      assert IsFirst(rs, a.firstT);
    } else {
      assert Time(rs[0]) == INT64_MAX;
    }
  }

  /** r is the earliest record of the list at its time. */
  ghost predicate EarliestAt(rs: seq<Rec>, t: int, r: Rec) {
    exists i :: 0 <= i < |rs| && rs[i] == r && Time(rs[i]) == t && forall j :: 0 <= j < i ==> Time(rs[j]) != t
  }

  /** r is the earliest of its kind at its time. */
  ghost predicate EarliestOf(rs: seq<Rec>, kind: Kind, t: int, r: Rec) {
    exists i :: 0 <= i < |rs| && rs[i] == r && Has(kind, r) && Time(rs[i]) == t
      && forall j :: 0 <= j < i && Has(kind, rs[j]) ==> Time(rs[j]) != t
  }

  lemma EarliestNew(front: seq<Rec>, r: Rec)
    requires forall j :: 0 <= j < |front| ==> Time(front[j]) != Time(r)
    ensures EarliestAt(front + [r], Time(r), r)
  {
    hide Time;
    var rs, n := front + [r], |front|;
    assert rs[n] == r && forall j :: 0 <= j < n ==> rs[j] == front[j];
  }

  lemma EarliestStays(front: seq<Rec>, x: Rec, t: int, r: Rec)
    requires EarliestAt(front, t, r)
    ensures EarliestAt(front + [x], t, r)
  {
    hide Time;
    var rs := front + [x];
    var i :| 0 <= i < |front| && front[i] == r && Time(front[i]) == t && forall j :: 0 <= j < i ==> Time(front[j]) != t;
    assert rs[i] == r && forall j :: 0 <= j < i ==> rs[j] == front[j];
  }

  lemma {:induction false} FirstIsEarliest(rs: seq<Rec>, cutoff: int)
    ensures var a := AggOf(rs, cutoff); a.first.Some? ==> EarliestAt(rs, a.firstT, a.first.value)
    decreases |rs|
  {
    hide Newer, Time, EarliestAt;
    if rs != [] {
      var n := |rs| - 1;
      var front, a := rs[..n], AggOf(rs[..n], cutoff);
      FirstIsEarliest(front, cutoff);
      FirstOf(front, cutoff);
      assert rs == front + [rs[n]];
      if Time(rs[n]) < a.firstT {
        EarliestNew(front, rs[n]);
      } else if a.first.Some? {
        EarliestStays(front, rs[n], a.firstT, a.first.value);
      }
    }
  }

  lemma EarliestOfNew(front: seq<Rec>, kind: Kind, r: Rec)
    requires Has(kind, r) && forall j :: 0 <= j < |front| && Has(kind, front[j]) ==> Time(front[j]) != Time(r)
    ensures EarliestOf(front + [r], kind, Time(r), r)
  {
    hide Time, Has;
    var rs, n := front + [r], |front|;
    assert rs[n] == r && forall j :: 0 <= j < n ==> rs[j] == front[j];
  }

  lemma EarliestOfStays(front: seq<Rec>, kind: Kind, x: Rec, t: int, r: Rec)
    requires EarliestOf(front, kind, t, r)
    ensures EarliestOf(front + [x], kind, t, r)
  {
    hide Time, Has;
    var rs := front + [x];
    var i :| 0 <= i < |front| && front[i] == r && Has(kind, r) && Time(front[i]) == t
      && forall j :: 0 <= j < i && Has(kind, front[j]) ==> Time(front[j]) != t;
    assert rs[i] == r && forall j :: 0 <= j < i ==> rs[j] == front[j];
  }

  lemma {:induction false} LatestIsEarliest(rs: seq<Rec>, kind: Kind)
    ensures var l := LatestOf(rs, kind); l.rec.Some? ==> EarliestOf(rs, kind, l.t, l.rec.value)
    decreases |rs|
  {
    hide Time, Has, EarliestOf;
    if rs != [] {
      var n := |rs| - 1;
      var front, l := rs[..n], LatestOf(rs[..n], kind);
      LatestIsEarliest(front, kind);
      LatestIs(front, kind);
      assert rs == front + [rs[n]];
      if Has(kind, rs[n]) && Time(rs[n]) > l.t {
        EarliestOfNew(front, kind, rs[n]);
      } else if l.rec.Some? {
        EarliestOfStays(front, kind, rs[n], l.t, l.rec.value);
      }
    }
  }

  /** r is the record the summary keeps at time t. */
  ghost predicate Chosen(rs: seq<Rec>, cutoff: int, t: int, r: Rec) {
    if InWindow(rs, cutoff, t) then LastAt(rs, t, r)
    else if IsFirst(rs, t) then EarliestAt(rs, t, r)
    else if IsLatest(rs, Position, t) then EarliestOf(rs, Position, t, r)
    else IsLatest(rs, Name, t) && EarliestOf(rs, Name, t, r)
  }

  /**
   * Of several records at one time the window keeps the last. Outside it the earliest counts, as the
   * first record before the latest positioned, and that before the latest named one.
   */
  lemma KeptAt(rs: seq<Rec>, cutoff: int, t: int)
    requires rs != [] && cutoff < 0x8000_0000_0000_0000 && t in Entries(AggOf(rs, cutoff))
    ensures Chosen(rs, cutoff, t, Entries(AggOf(rs, cutoff))[t])
  {
    hide Time, Has, AggOf, LatestOf, InWindow, IsFirst, IsLatest, LastAt, EarliestAt, EarliestOf;
    AggParts(rs, cutoff);
    TimesExactly(rs, cutoff, t);
    WindowOf(rs, cutoff, t);
    FirstExactly(rs, cutoff, t);
    LatestExactly(rs, Position, t);
    LatestExactly(rs, Name, t);
    FirstIsEarliest(rs, cutoff);
    LatestIsEarliest(rs, Position);
    LatestIsEarliest(rs, Name);
  }

  // --------------------------------------------------------------- order

  lemma {:induction false} GreatestOf(s: set<int>) returns (g: int)
    requires s != {}
    ensures g in s && forall x :: x in s ==> x <= g
    decreases |s|
  {
    assert (forall m :: m !in s) ==> s == {};
    var m :| m in s;
    var rest := s - {m};
    assert forall x :: x in s ==> x == m || x in rest;
    if rest == {} {
      g := m;
    } else {
      var k := GreatestOf(rest);
      g := if k > m then k else m;
    }
  }

  lemma HasGreatest(s: set<int>)
    requires s != {}
    ensures exists m :: m in s && forall x :: x in s ==> x <= m
  {
    var g := GreatestOf(s);
  }

  ghost function Greatest(s: set<int>): (m: int)
    requires s != {}
    ensures m in s && forall x :: x in s ==> x <= m
  {
    HasGreatest(s);
    var m :| m in s && forall x :: x in s ==> x <= m;
    m
  }

  /** ts lists the elements of s in increasing order. */
  ghost predicate Lists(ts: seq<int>, s: set<int>) {
    && |ts| == |s| && (forall t :: t in ts <==> t in s)
    && forall i, j :: 0 <= i < j < |ts| ==> ts[i] < ts[j]
  }

  lemma ListsMore(ts: seq<int>, s: set<int>, m: int)
    requires m in s && Lists(ts, s - {m}) && forall x :: x in s ==> x <= m
    ensures Lists(ts + [m], s)
  {
    assert |s - {m}| == |s| - 1;
    assert forall t :: t in ts + [m] <==> t in ts || t == m;
    assert forall i :: 0 <= i < |ts| ==> ts[i] in ts;
  }

  ghost function Ascending(s: set<int>): (ts: seq<int>)
    ensures Lists(ts, s)
    decreases |s|
  {
    if s == {} then []
    else
      var m := Greatest(s);
      assert |s - {m}| == |s| - 1;
      ListsMore(Ascending(s - {m}), s, m);
      Ascending(s - {m}) + [m]
  }

  lemma AscendingStep(s: set<int>, m: int)
    requires m in s && forall x :: x in s ==> x <= m
    ensures Ascending(s) == Ascending(s - {m}) + [m]
  {
    hide Lists;
    assert Greatest(s) == m;
  }

  lemma AscendingNone()
    ensures Ascending({}) == []
  {
  }

  lemma AscendingHas(s: set<int>)
    ensures forall i :: 0 <= i < |Ascending(s)| ==> Ascending(s)[i] in s
  {
    var ts := Ascending(s);
    assert forall i :: 0 <= i < |ts| ==> ts[i] in ts;
  }

  function Marked(r: Rec, first: bool, n: nat): Rec {
    if first then WithRxCount(r, n) else r
  }

  function MarkAll(em: map<int, Rec>, ts: seq<int>, n: nat): (out: seq<Rec>)
    requires forall i :: 0 <= i < |ts| ==> ts[i] in em
    ensures |out| == |ts| && forall i :: 0 <= i < |ts| ==> out[i] == Marked(em[ts[i]], i == 0, n)
  {
    seq(|ts|, i requires 0 <= i < |ts| => Marked(em[ts[i]], i == 0, n))
  }

  /** The entries of one vessel in time order; the first carries the number of records received. */
  ghost function VesselEntries(a: Agg): seq<Rec> {
    MarkAll(Entries(a), Ascending(Entries(a).Keys), a.cnt)
  }

  /**
   * The summary of one vessel: times strictly increase, they are exactly the recent ones and those of
   * the three key records, and the first entry says how many records there were.
   */
  lemma {:induction false} VesselSummary(rs: seq<Rec>, cutoff: int)
    requires rs != [] && cutoff < 0x8000_0000_0000_0000
    ensures var out := VesselEntries(AggOf(rs, cutoff));
            && out != []
            && (forall i, j :: 0 <= i < j < |out| ==> Time(out[i]) < Time(out[j]))
            && (forall t :: (exists i :: 0 <= i < |out| && Time(out[i]) == t)
                  <==> InWindow(rs, cutoff, t) || IsFirst(rs, t) || IsLatest(rs, Position, t) || IsLatest(rs, Name, t))
            && (|rs| < 0x1_0000_0000 ==> RxCount(out[0]) == |rs|)
            && (forall i :: 0 < i < |out| ==> out[i] in rs)
  {
    hide Time, Mmsi, RxCount, Has, AggOf, Entries, InWindow, IsFirst, IsLatest, VesselEntries;
    var em, out := Entries(AggOf(rs, cutoff)), VesselEntries(AggOf(rs, cutoff));
    var ts := Ascending(em.Keys);
    SomeEntry(rs, cutoff);
    EntryTimes(rs, cutoff);
    forall t
      ensures t in em <==>
        InWindow(rs, cutoff, t) || IsFirst(rs, t) || IsLatest(rs, Position, t) || IsLatest(rs, Name, t)
    {
      TimesExactly(rs, cutoff, t);
    }
    forall t | t in em
      ensures exists i :: 0 <= i < |out| && Time(out[i]) == t
    {
      assert t in ts;
      var i :| 0 <= i < |ts| && ts[i] == t;
      assert Time(out[i]) == t;
    }
    if |rs| < 0x1_0000_0000 {
      FirstCounts(rs, cutoff);
    }
  }

  /** Entry i stands at the i-th time. */
  lemma {:induction false} EntryTimes(rs: seq<Rec>, cutoff: int)
    requires rs != [] && cutoff < 0x8000_0000_0000_0000
    ensures var em, out := Entries(AggOf(rs, cutoff)), VesselEntries(AggOf(rs, cutoff));
            var ts := Ascending(em.Keys);
            && |out| == |ts|
            && (forall i :: 0 <= i < |out| ==> ts[i] in em && Time(out[i]) == ts[i] && Mmsi(out[i]) == Mmsi(em[ts[i]]))
            && (forall i :: 0 <= i < |out| ==> em[ts[i]] in rs)
            && (forall i :: 0 < i < |out| ==> out[i] in rs)
  {
    hide Time, Mmsi, WithRxCount, Has, AggOf, Entries, InWindow, IsFirst, IsLatest;
    var a := AggOf(rs, cutoff);
    var em, out := Entries(a), VesselEntries(a);
    var ts := Ascending(em.Keys);
    forall i | 0 <= i < |out|
      ensures ts[i] in em && Time(out[i]) == ts[i] && Mmsi(out[i]) == Mmsi(em[ts[i]]) && em[ts[i]] in rs
      ensures i > 0 ==> out[i] in rs
    {
      assert ts[i] in ts;
      TimesExactly(rs, cutoff, ts[i]);
      CountOnly(em[ts[i]], a.cnt);
    }
  }

  /**
   * Every entry is the record chosen for its time, byte for byte; only in the first one have the four
   * bytes of the count been written over.
   */
  lemma {:induction false} EntriesChosen(rs: seq<Rec>, cutoff: int)
    requires rs != [] && cutoff < 0x8000_0000_0000_0000
    ensures var out := VesselEntries(AggOf(rs, cutoff));
            && (forall i :: 0 < i < |out| ==> Chosen(rs, cutoff, Time(out[i]), out[i]))
            && (out != [] ==> exists r :: Chosen(rs, cutoff, Time(out[0]), r) && SameButCount(out[0], r))
  {
    hide Time, Mmsi, AggOf, Entries, Chosen, SameButCount, WithRxCount;
    var a := AggOf(rs, cutoff);
    var em, out := Entries(a), VesselEntries(a);
    var ts := Ascending(em.Keys);
    EntryTimes(rs, cutoff);
    forall i | 0 <= i < |out|
      ensures Chosen(rs, cutoff, Time(out[i]), em[ts[i]])
    {
      KeptAt(rs, cutoff, ts[i]);
    }
    if out != [] {
      CountBytesOnly(em[ts[0]], a.cnt);
    }
  }

  lemma {:induction false} FirstCounts(rs: seq<Rec>, cutoff: int)
    requires rs != [] && cutoff < 0x8000_0000_0000_0000 && |rs| < 0x1_0000_0000
    ensures |VesselEntries(AggOf(rs, cutoff))| > 0 && RxCount(VesselEntries(AggOf(rs, cutoff))[0]) == |rs|
  {
    hide Time, Mmsi, RxCount, WithRxCount, AggOf, Entries;
    var a := AggOf(rs, cutoff);
    AggParts(rs, cutoff);
    SomeEntry(rs, cutoff);
    var em := Entries(a);
    var ts := Ascending(em.Keys);
    assert ts[0] in ts;
    CountOnly(em[ts[0]], a.cnt);
  }

  lemma {:induction false} VesselMmsi(rs: seq<Rec>, cutoff: int, mmsi: nat)
    requires rs != [] && cutoff < 0x8000_0000_0000_0000 && forall r :: r in rs ==> Mmsi(r) == mmsi
    ensures forall r :: r in VesselEntries(AggOf(rs, cutoff)) ==> Mmsi(r) == mmsi
  {
    hide Time, Mmsi, AggOf, Entries, VesselEntries;
    EntryTimes(rs, cutoff);
  }

  lemma SomeEntry(rs: seq<Rec>, cutoff: int)
    requires rs != [] && cutoff < 0x8000_0000_0000_0000
    ensures |Ascending(Entries(AggOf(rs, cutoff)).Keys)| > 0
  {
    hide Time, AggOf, Entries, Has;
    var t := LeastTime(rs);
    TimesExactly(rs, cutoff, t);
    assert t in Ascending(Entries(AggOf(rs, cutoff)).Keys);
  }

  lemma {:induction false} LeastTime(rs: seq<Rec>) returns (t: int)
    requires rs != []
    ensures IsFirst(rs, t)
    decreases |rs|
  {
    hide Time;
    t := Time(rs[0]);
    if |rs| > 1 {
      var u := LeastTime(rs[1..]);
      var i :| 0 <= i < |rs[1..]| && Time(rs[1..][i]) == u;
      assert rs[i + 1] == rs[1..][i];
      assert forall j :: 1 <= j < |rs| ==> rs[j] == rs[1..][j - 1];
      if u < t {
        t := u;
      }
    }
  }

  // ------------------------------------------------------- the whole log

  function Mmsis(rs: seq<Rec>): set<int> {
    set r | r in rs :: Mmsi(r)
  }

  ghost function Entry(rs: seq<Rec>, mmsi: int, cutoff: int): seq<Rec> {
    if mmsi < 0 then [] else VesselEntries(AggOf(OfVessel(rs, mmsi), cutoff))
  }

  ghost function SummaryOver(ms: seq<int>, rs: seq<Rec>, cutoff: int): seq<Rec> {
    if ms == [] then [] else SummaryOver(ms[..|ms| - 1], rs, cutoff) + Entry(rs, ms[|ms| - 1], cutoff)
  }

  lemma SummaryOverNext(ms: seq<int>, i: nat, rs: seq<Rec>, cutoff: int)
    requires i < |ms|
    ensures SummaryOver(ms[..i + 1], rs, cutoff) == SummaryOver(ms[..i], rs, cutoff) + Entry(rs, ms[i], cutoff)
  {
    hide Entry;
    assert ms[..i + 1][..i] == ms[..i];
  }

  ghost function SummaryRecords(rs: seq<Rec>, cutoff: int): seq<Rec> {
    SummaryOver(Ascending(Mmsis(rs)), rs, cutoff)
  }

  ghost function Summary(body: seq<Byte>, cutoff: int): seq<Byte> {
    EmitAll(SummaryRecords(Records(body), cutoff))
  }

  lemma {:induction false} EntryVessel(rs: seq<Rec>, mmsi: int, cutoff: int)
    requires mmsi in Mmsis(rs) && cutoff < 0x8000_0000_0000_0000
    ensures mmsi >= 0 && OfVessel(rs, mmsi) != []
    ensures forall r :: r in Entry(rs, mmsi, cutoff) ==> Mmsi(r) == mmsi
  {
    hide Mmsi, OfVessel, AggOf, VesselEntries;
    var r0 :| r0 in rs && Mmsi(r0) == mmsi;
    OfVesselHas(rs, mmsi);
    assert r0 in OfVessel(rs, mmsi);
    VesselMmsi(OfVessel(rs, mmsi), cutoff, mmsi);
  }

  lemma {:induction false} OverVessels(ms: seq<int>, rs: seq<Rec>, cutoff: int, mmsi: nat)
    requires (forall m :: m in ms ==> m in Mmsis(rs)) && cutoff < 0x8000_0000_0000_0000
    requires forall i, j :: 0 <= i < j < |ms| ==> ms[i] < ms[j]
    ensures OfVessel(SummaryOver(ms, rs, cutoff), mmsi) == if mmsi in ms then Entry(rs, mmsi, cutoff) else []
    ensures forall r :: r in SummaryOver(ms, rs, cutoff) ==> Mmsi(r) in ms
    decreases |ms|
  {
    hide Mmsi, Entry, Mmsis, OfVessel;
    if ms == [] {
      NoneOfVessel(mmsi);
    } else {
      var n := |ms| - 1;
      assert ms == ms[..n] + [ms[n]];
      OverVessels(ms[..n], rs, cutoff, mmsi);
      EntryVessel(rs, ms[n], cutoff);
      OfVesselAppend(SummaryOver(ms[..n], rs, cutoff), Entry(rs, ms[n], cutoff), mmsi);
      OfVesselUniform(Entry(rs, ms[n], cutoff), ms[n], mmsi);
      assert ms[n] !in ms[..n];
    }
  }

  lemma NoneOfVessel(mmsi: nat)
    ensures OfVessel([], mmsi) == []
  {
  }

  lemma {:induction false} OfVesselAppend(rs: seq<Rec>, qs: seq<Rec>, mmsi: nat)
    ensures OfVessel(rs + qs, mmsi) == OfVessel(rs, mmsi) + OfVessel(qs, mmsi)
    decreases |qs|
  {
    hide Mmsi;
    if qs == [] {
      assert rs + qs == rs;
    } else {
      assert (rs + qs)[..|rs + qs| - 1] == rs + qs[..|qs| - 1];
      OfVesselAppend(rs, qs[..|qs| - 1], mmsi);
    }
  }

  lemma {:induction false} OfVesselUniform(qs: seq<Rec>, m: int, mmsi: nat)
    requires forall r :: r in qs ==> Mmsi(r) == m
    ensures OfVessel(qs, mmsi) == if m == mmsi then qs else []
    decreases |qs|
  {
    hide Mmsi, OfVessel;
    if qs == [] {
      NoneOfVessel(mmsi);
    } else {
      var n := |qs| - 1;
      OfVesselUniform(qs[..n], m, mmsi);
      OfVesselNext(qs[..n], qs[n], mmsi);
      assert qs == qs[..n] + [qs[n]];
    }
  }

  /** Reading the summary back gives the emitted records, and for each vessel its own summary. */
  lemma {:induction false} SummaryReadsBack(body: seq<Byte>, cutoff: int, mmsi: nat)
    requires cutoff < 0x8000_0000_0000_0000
    ensures var rs := Records(body);
            && Records(Summary(body, cutoff)) == SummaryRecords(rs, cutoff)
            && OfVessel(Records(Summary(body, cutoff)), mmsi)
               == if mmsi in Mmsis(rs) then VesselEntries(AggOf(OfVessel(rs, mmsi), cutoff)) else []
  {
    hide Records, Mmsi, VesselEntries, AggOf, OfVessel, EmitAll, SummaryOver;
    var rs := Records(body);
    var ms := Ascending(Mmsis(rs));
    OverVessels(ms, rs, cutoff, mmsi);
    RecordsHaveMmsi(body);
    NoZeroMmsi(rs);
    EmittedReadsBack(SummaryRecords(rs, cutoff));
  }

  /** The summary goes through the vessels in increasing order of MMSI. */
  lemma {:induction false} VesselsAscend(ms: seq<int>, rs: seq<Rec>, cutoff: int)
    requires (forall m :: m in ms ==> m in Mmsis(rs)) && cutoff < 0x8000_0000_0000_0000
    requires forall i, j :: 0 <= i < j < |ms| ==> ms[i] < ms[j]
    ensures var out := SummaryOver(ms, rs, cutoff);
            forall i, j :: 0 <= i < j < |out| ==> Mmsi(out[i]) <= Mmsi(out[j])
    decreases |ms|
  {
    hide Mmsi, Entry, Mmsis;
    if ms != [] {
      var n := |ms| - 1;
      assert ms == ms[..n] + [ms[n]];
      var front, last := SummaryOver(ms[..n], rs, cutoff), Entry(rs, ms[n], cutoff);
      VesselsAscend(ms[..n], rs, cutoff);
      OverVessels(ms[..n], rs, cutoff, 0);
      EntryVessel(rs, ms[n], cutoff);
      assert forall r :: r in front ==> Mmsi(r) <= ms[n];
      JoinedAscend(front, last, ms[n]);
    }
  }

  lemma JoinedAscend(front: seq<Rec>, last: seq<Rec>, m: int)
    requires forall i, j :: 0 <= i < j < |front| ==> Mmsi(front[i]) <= Mmsi(front[j])
    requires forall r :: r in front ==> Mmsi(r) <= m
    requires forall r :: r in last ==> Mmsi(r) == m
    ensures var out := front + last; forall i, j :: 0 <= i < j < |out| ==> Mmsi(out[i]) <= Mmsi(out[j])
  {
    hide Mmsi;
    assert forall i :: 0 <= i < |front| ==> front[i] in front;
    assert forall i :: 0 <= i < |last| ==> last[i] in last;
  }

  lemma SummaryAscends(body: seq<Byte>, cutoff: int)
    requires cutoff < 0x8000_0000_0000_0000
    ensures var out := Records(Summary(body, cutoff));
            forall i, j :: 0 <= i < j < |out| ==> Mmsi(out[i]) <= Mmsi(out[j])
  {
    hide Records, Mmsi, Mmsis, OfVessel, EmitAll, SummaryOver, Entry, VesselEntries, AggOf;
    var rs, out := Records(body), Records(Summary(body, cutoff));
    SummaryReadsBack(body, cutoff, 0);
    assert out == SummaryOver(Ascending(Mmsis(rs)), rs, cutoff);
    VesselsAscend(Ascending(Mmsis(rs)), rs, cutoff);
    hide *;
  }

  lemma NoZeroMmsi(rs: seq<Rec>)
    requires forall r :: r in rs ==> Mmsi(r) != 0
    ensures 0 !in Mmsis(rs)
  {
    hide Mmsi;
  }
}
