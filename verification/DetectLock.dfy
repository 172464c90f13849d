/**
 * The lock state machine of a detect channel: armed over a search band, narrowed to a burst, widened
 * while it lasts, released when it stays quiet. Scanning a row and applying its outcome are two
 * steps, because the user may act between them.
 */
module DetectLock {
  import opened Prelude

  /** Frequencies in MHz. */
  datatype Band = Band(s: real, e: real)

  const HOLD_FRAMES: int := 18
  const EXPAND_FRAMES: int := 3
  const GUARD_MHZ: real := 0.002

  datatype Pending = Lock(band: Band) | Release(band: Band)

  /**
   * search is the band the channel was armed over; band what it covers now. resized records that the
   * user has redrawn the channel during the present lock.
   */
  datatype State = State(on: bool, locked: bool, band: Band, search: Band, hold: int, extCount: int, ext: Band,
                         pending: Option<Pending>, resized: bool)

  datatype Event =
    | Arm
    | Disarm
    | Resize(to: Band)
    | Scan(burst: Option<Band>, specBw: real)
    | Apply(specBw: real)

  function Clamped(b: Band, search: Band): Band {
    Band(Max(b.s, search.s), Min(b.e, search.e))
  }

  /** A burst seen by the scan: it has to have some width. */
  predicate Have(burst: Option<Band>) {
    burst.Some? && burst.value.e > burst.value.s
  }

  predicate Outside(burst: Band, band: Band) {
    burst.s < band.s || burst.e > band.e
  }

  function Hull(a: Band, b: Band): Band {
    Band(Min(a.s, b.s), Max(a.e, b.e))
  }

  function Guarded(b: Band): Band {
    Band(b.s - GUARD_MHZ, b.e + GUARD_MHZ)
  }

  /** What one new row does to an armed channel. */
  function Scanned(c: State, burst: Option<Band>, specBw: real): State {
    if Have(burst) then
      var b, held := burst.value, c.(hold := HOLD_FRAMES);
      if !c.locked then held.(pending := Some(Lock(Guarded(b))), extCount := 0)
      else if specBw > 0.0 then held.(extCount := 0)
      else if Outside(b, c.band) then
        var ext := if c.extCount == 0 then b else Hull(c.ext, b);
        if c.extCount + 1 >= EXPAND_FRAMES then
          held.(pending := Some(Lock(Hull(c.band, Guarded(ext)))), extCount := 0, ext := ext)
        else held.(extCount := c.extCount + 1, ext := ext)
      else held.(extCount := 0)
    else if c.locked then
      if c.hold - 1 <= 0 then c.(hold := c.hold - 1, pending := Some(Release(c.search)))
      else c.(hold := c.hold - 1)
    else c
  }

  /** The band a lock takes: the burst's, or the decoder's width about its middle; never outside the search band. */
  function LockBand(b: Band, search: Band, specBw: real): Option<Band> {
    var d := Clamped(b, search);
    if d.e <= d.s then None
    else if specBw > 0.0 then
      var mid, half := (d.s + d.e) * 0.5, specBw * 0.0000005;
      var f := Clamped(Band(mid - half, mid + half), search);
      if f.e <= f.s then None else Some(f)
    else Some(d)
  }

  function Applied(c: State, specBw: real): State {
    if c.pending == None then c
    else if !c.on then c.(pending := None)
    else match c.pending.value
      case Lock(b) =>
        var d := LockBand(b, c.search, specBw);
        if d == None then c.(pending := None)
        else c.(pending := None, band := d.value, locked := true, resized := c.locked && c.resized)
      case Release(b) =>
        c.(pending := None, band := b, locked := false, hold := 0, extCount := 0, resized := false)
  }

  function Next(c: State, e: Event): State {
    match e
    case Arm =>
      if c.on then c
      else c.(on := true, locked := false, search := c.band, hold := 0, extCount := 0, resized := false)
    case Disarm =>
      if !c.on then c
      else c.(on := false, locked := false, hold := 0, extCount := 0, resized := false,
              band := if c.locked then c.search else c.band)
    case Resize(to) =>
      c.(band := to, search := if c.on && !c.locked then to else c.search, resized := c.resized || c.locked)
    case Scan(burst, specBw) => if c.on && c.pending == None then Scanned(c, burst, specBw) else c
    case Apply(specBw) => Applied(c, specBw)
  }

  function Initial(b: Band): State {
    State(false, false, b, b, 0, 0, b, None, false)
  }

  function Then(c: State, es: seq<Event>): State {
    if es == [] then c else Next(Then(c, es[..|es| - 1]), es[|es| - 1])
  }

  /** The state of a channel made over a band, after a run of events. */
  function After(b: Band, es: seq<Event>): State {
    Then(Initial(b), es)
  }

  lemma ThenOne(c: State, es: seq<Event>, e: Event)
    ensures Then(c, es + [e]) == Next(Then(c, es), e)
  {
    assert (es + [e])[..|es|] == es;
  }

  lemma {:induction false} ThenThen(c: State, es: seq<Event>, fs: seq<Event>)
    ensures Then(c, es + fs) == Then(Then(c, es), fs)
    decreases |fs|
  {
    hide Next;
    if fs == [] {
      assert es + fs == es;
    } else {
      var front, last := fs[..|fs| - 1], fs[|fs| - 1];
      ThenThen(c, es, front);
      assert es + fs == (es + front) + [last];
      ThenOne(c, es + front, last);
    }
  }

  // ------------------------------------------------------------- invariant

  predicate Within(b: Band, search: Band) {
    search.s <= b.s < b.e <= search.e
  }

  predicate Covers(a: Band, b: Band) {
    a.s <= b.s && b.e <= a.e
  }

  /** What every event keeps. */
  ghost predicate Sound(c: State) {
    && (!c.on ==> !c.locked)
    && (!c.locked ==> !c.resized)
    && (c.locked && !c.resized ==> Within(c.band, c.search))
    && (c.pending.Some? && c.pending.value.Release? && c.locked ==> c.pending.value.band == c.search)
    && (c.pending.Some? && c.pending.value.Lock? && c.locked && !c.resized ==> Covers(c.pending.value.band, c.band))
  }

  /** While armed and not locked, the channel covers its search band. */
  predicate Settled(c: State) {
    c.on && !c.locked ==> c.band == c.search
  }

  /** The event does not apply a release that was decided for another band than the one searched now. */
  predicate Timely(c: State, e: Event) {
    e.Apply? && c.on && c.pending.Some? && c.pending.value.Release? ==> c.pending.value.band == c.search
  }

  lemma StepKeeps(c: State, e: Event)
    requires Sound(c)
    ensures Sound(Next(c, e))
  {
    match e
    case Arm =>
    case Disarm =>
    case Resize(to) =>
    case Scan(burst, specBw) =>
      assert forall a: Band, b: Band :: Covers(Hull(a, b), a);
    case Apply(specBw) =>
  }

  /** A late release is all that unsettles a channel, and whether a release comes late shows beforehand. */
  lemma StepSettledExactly(c: State, e: Event)
    requires Settled(c)
    ensures Settled(Next(c, e)) <==> Timely(c, e)
  {
  }

  /** In every run a disarmed channel is not locked, and a lock not redrawn stays inside the search band. */
  lemma {:induction false} EveryRun(b: Band, es: seq<Event>)
    ensures Sound(After(b, es))
    decreases |es|
  {
    hide Next;
    if es != [] {
      EveryRun(b, es[..|es| - 1]);
      StepKeeps(After(b, es[..|es| - 1]), es[|es| - 1]);
    }
  }

  ghost predicate AlwaysSettled(b: Band, es: seq<Event>) {
    forall i :: 0 <= i <= |es| ==> Settled(After(b, es[..i]))
  }

  ghost predicate AlwaysTimely(b: Band, es: seq<Event>) {
    forall i :: 0 <= i < |es| ==> Timely(After(b, es[..i]), es[i])
  }

  /**
   * A channel covers its search band whenever it is armed and not locked, throughout a run, exactly
   * when no release in the run is applied late.
   */
  lemma {:induction false} SettledExactly(b: Band, es: seq<Event>)
    ensures AlwaysSettled(b, es) <==> AlwaysTimely(b, es)
    decreases |es|
  {
    hide Next, Timely;
    if es == [] {
      assert es[..0] == [];
    } else {
      var n := |es| - 1;
      SettledExactly(b, es[..n]);
      Fronts(b, es);
      if Settled(After(b, es[..n])) {
        StepSettledExactly(After(b, es[..n]), es[n]);
      }
    }
  }

  /** Both conditions, split into the run without its last event and that event. */
  lemma Fronts(b: Band, es: seq<Event>)
    requires es != []
    ensures var n := |es| - 1;
            && (AlwaysSettled(b, es) <==> AlwaysSettled(b, es[..n]) && Settled(After(b, es)))
            && (AlwaysTimely(b, es) <==> AlwaysTimely(b, es[..n]) && Timely(After(b, es[..n]), es[n]))
            && (AlwaysSettled(b, es[..n]) ==> Settled(After(b, es[..n])))
  {
    hide Next, Timely, Settled, After;
    var n := |es| - 1;
    assert forall i :: 0 <= i <= n ==> es[..n][..i] == es[..i];
    assert es[..n + 1] == es && es[..n][..n] == es[..n];
    if AlwaysSettled(b, es[..n]) && Settled(After(b, es)) {
      forall i | 0 <= i <= |es| ensures Settled(After(b, es[..i])) {
        if i <= n {
          assert es[..n][..i] == es[..i];
        }
      }
    }
    if AlwaysSettled(b, es) {
      forall i | 0 <= i <= n ensures Settled(After(b, es[..n][..i])) {
        assert es[..n][..i] == es[..i];
      }
    }
    if AlwaysTimely(b, es[..n]) && Timely(After(b, es[..n]), es[n]) {
      forall i | 0 <= i < |es| ensures Timely(After(b, es[..i]), es[i]) {
        if i < n {
          assert es[..n][..i] == es[..i] && es[..n][i] == es[i];
        }
      }
    }
    if AlwaysTimely(b, es) {
      forall i | 0 <= i < n ensures Timely(After(b, es[..n][..i]), es[..n][i]) {
        assert es[..n][..i] == es[..i] && es[..n][i] == es[i];
      }
    }
  }

  // ---------------------------------------------------------- one episode

  /** A step inside a lock that neither the user nor a decoder's fixed width interferes with. */
  predicate Undisturbed(c: State, e: Event) {
    && c.locked && !c.resized && Next(c, e).locked && !e.Resize?
    && (e.Apply? ==> e.specBw <= 0.0)
  }

  lemma StepWidens(c: State, e: Event)
    requires Sound(c) && Undisturbed(c, e)
    ensures Covers(Next(c, e).band, c.band) && Next(c, e).search == c.search && !Next(c, e).resized
  {
    StepKeeps(c, e);
  }

  ghost predicate Episode(c: State, es: seq<Event>) {
    && c.locked && !c.resized
    && forall i :: 0 <= i < |es| ==> Undisturbed(Then(c, es[..i]), es[i])
  }

  /** During one lock the band only widens, and stays inside the search band it started from. */
  lemma {:induction false} EpisodeWidens(c: State, es: seq<Event>)
    requires Sound(c) && Episode(c, es)
    ensures var d := Then(c, es);
            && Sound(d) && d.locked && !d.resized && Covers(d.band, c.band)
            && d.search == c.search && Within(d.band, c.search)
    decreases |es|
  {
    hide Next;
    if es != [] {
      var front, last := es[..|es| - 1], es[|es| - 1];
      assert forall i :: 0 <= i < |front| ==> front[..i] == es[..i];
      assert Undisturbed(Then(c, es[..|es| - 1]), last);
      EpisodeWidens(c, front);
      StepWidens(Then(c, front), last);
      StepKeeps(Then(c, front), last);
    }
  }

  // ------------------------------------------------------------- restoring

  /** A lock that ends, by a release or by disarming, leaves the channel on exactly its search band. */
  lemma Restored(b: Band, es: seq<Event>, e: Event)
    requires After(b, es).locked && !Next(After(b, es), e).locked
    ensures e.Apply? || e.Disarm?
    ensures Next(After(b, es), e).band == After(b, es).search == Next(After(b, es), e).search
  {
    EveryRun(b, es);
  }

  function QuietRows(n: nat): seq<Event> {
    seq(n, _ => Scan(None, 0.0))
  }

  lemma {:induction false} QuietHolds(c: State, n: nat)
    requires c.on && c.locked && c.pending == None && c.hold == HOLD_FRAMES && n < HOLD_FRAMES
    ensures Then(c, QuietRows(n)) == c.(hold := HOLD_FRAMES - n)
    decreases n
  {
    if n > 0 {
      QuietHolds(c, n - 1);
      assert QuietRows(n)[..n - 1] == QuietRows(n - 1);
    }
  }

  lemma QuietReleases(c: State)
    requires c.on && c.locked && c.pending == None && c.hold == HOLD_FRAMES
    ensures Then(c, QuietRows(18)) == c.(hold := 0, pending := Some(Release(c.search)))
  {
    QuietHolds(c, 17);
    assert QuietRows(18)[..17] == QuietRows(17);
  }

  /** A lock survives seventeen quiet rows and is released by the eighteenth. */
  lemma ReleasedByEighteenth(c: State)
    requires c.on && c.locked && c.pending == None && c.hold == HOLD_FRAMES
    ensures Then(c, QuietRows(17)).locked && Then(c, QuietRows(17)).pending == None
    ensures Then(c, QuietRows(18)).pending == Some(Release(c.search))
    ensures Next(Then(c, QuietRows(18)), Apply(0.0)).band == c.search
    ensures !Next(Then(c, QuietRows(18)), Apply(0.0)).locked
  {
    QuietHolds(c, 17);
    QuietReleases(c);
  }

  /** A run in which the user disarms, redraws and re-arms before the release of a lock is applied. */
  function LateRelease(to: Band, burst: Band): seq<Event> {
    [Arm, Scan(Some(burst), 0.0), Apply(0.0)] + QuietRows(18) + [Disarm, Resize(to), Arm, Apply(0.0)]
  }

  /** It ends armed over the new band, not locked, and covering the old one: whatever burst locked it. */
  lemma LateReleaseUnsettles(was: Band, to: Band, burst: Band)
    requires Have(Some(burst)) && LockBand(Guarded(burst), was, 0.0).Some? && was != to
    ensures var d := After(was, LateRelease(to, burst));
            d.on && !d.locked && d.search == to && d.band == was && !Settled(d)
    ensures !AlwaysTimely(was, LateRelease(to, burst))
  {
    hide Next, Settled, AlwaysSettled, AlwaysTimely, LockBand, Have, Guarded;
    var es, fs := [Arm, Scan(Some(burst), 0.0), Apply(0.0)], [Disarm, Resize(to), Arm, Apply(0.0)];
    LocksFirst(was, burst);
    var c := After(was, es);
    QuietReleases(c);
    ThenThen(Initial(was), es, QuietRows(18));
    ThenThen(Initial(was), es + QuietRows(18), fs);
    Rearmed(Then(c, QuietRows(18)), to, was);
    SettledExactly(was, LateRelease(to, burst));
    EndSettled(was, LateRelease(to, burst));
  }

  lemma EndSettled(b: Band, es: seq<Event>)
    ensures AlwaysSettled(b, es) ==> Settled(After(b, es))
  {
    hide Settled, After;
    assert es[..|es|] == es;
  }

  /** Applied after a re-arming, a release puts back the band it was decided for. */
  lemma Rearmed(c: State, to: Band, was: Band)
    requires c.on && c.locked && c.pending == Some(Release(was)) && was != to
    ensures var d := Then(c, [Disarm, Resize(to), Arm, Apply(0.0)]);
            d.on && !d.locked && d.search == to && d.band == was && !Settled(d)
  {
    FourSteps(c, Disarm, Resize(to), Arm, Apply(0.0));
  }

  lemma LocksFirst(was: Band, burst: Band)
    requires Have(Some(burst)) && LockBand(Guarded(burst), was, 0.0).Some?
    ensures var c := After(was, [Arm, Scan(Some(burst), 0.0), Apply(0.0)]);
            c.on && c.locked && c.pending == None && c.hold == HOLD_FRAMES && c.search == was
  {
    hide Next, LockBand, Guarded;
    var c := Initial(was);
    var s, p := Scan(Some(burst), 0.0), Apply(0.0);
    assert [Arm, s, p] == [] + [Arm] + [s] + [p];
    ThenOne(c, [], Arm);
    ThenOne(c, [] + [Arm], s);
    ThenOne(c, [] + [Arm] + [s], p);
    Locks(was, burst);
  }

  lemma Locks(was: Band, burst: Band)
    requires Have(Some(burst)) && LockBand(Guarded(burst), was, 0.0).Some?
    ensures var c := Next(Next(Next(Initial(was), Arm), Scan(Some(burst), 0.0)), Apply(0.0));
            c.on && c.locked && c.pending == None && c.hold == HOLD_FRAMES && c.search == was
  {
    hide LockBand, Guarded;
  }

  lemma FourSteps(c: State, e0: Event, e1: Event, e2: Event, e3: Event)
    ensures Then(c, [e0, e1, e2, e3]) == Next(Next(Next(Next(c, e0), e1), e2), e3)
  {
    hide Next;
    ThenOne(c, [], e0);
    ThenOne(c, [] + [e0], e1);
    ThenOne(c, [] + [e0] + [e1], e2);
    ThenOne(c, [] + [e0] + [e1] + [e2], e3);
    assert [e0, e1, e2, e3] == [] + [e0] + [e1] + [e2] + [e3];
  }

  /** One or two rows outside the band change nothing; the third widens it to cover all three, with a guard. */
  lemma WidensOnThird(c: State, a: Band, b: Band, d: Band)
    requires c.on && c.locked && c.pending == None && c.extCount == 0
    requires forall x :: x in [a, b, d] ==> x.s < x.e && Outside(x, c.band)
    ensures var s1 := Next(c, Scan(Some(a), 0.0));
            var s2 := Next(s1, Scan(Some(b), 0.0));
            var s3 := Next(s2, Scan(Some(d), 0.0));
            && s1.pending == s2.pending == None && s1.band == s2.band == c.band
            && s3.pending == Some(Lock(Hull(c.band, Guarded(Hull(Hull(a, b), d)))))
  {
    assert a in [a, b, d] && b in [a, b, d] && d in [a, b, d];
  }

  /** Quiet rows between the three, at most seventeen at a time, do not stop them from widening it. */
  lemma {:induction false} QuietRowsBetween(c: State, a: Band, b: Band, d: Band, m: nat, n: nat)
    requires c.on && c.locked && c.pending == None && c.extCount == 0 && m < 18 && n < 18
    requires forall x :: x in [a, b, d] ==> x.s < x.e && Outside(x, c.band)
    ensures var es := [Scan(Some(a), 0.0)] + QuietRows(m) + [Scan(Some(b), 0.0)] + QuietRows(n) + [Scan(Some(d), 0.0)];
            Then(c, es).pending == Some(Lock(Hull(c.band, Guarded(Hull(Hull(a, b), d)))))
  {
    assert a in [a, b, d] && b in [a, b, d] && d in [a, b, d];
    var es1 := [Scan(Some(a), 0.0)];
    var es2 := es1 + QuietRows(m);
    var es3 := es2 + [Scan(Some(b), 0.0)];
    var es4 := es3 + QuietRows(n);
    assert [] + es1 == es1;
    ThenOne(c, [], Scan(Some(a), 0.0));
    ThenThen(c, es1, QuietRows(m));
    QuietHolds(Then(c, es1), m);
    ThenOne(c, es2, Scan(Some(b), 0.0));
    ThenThen(c, es3, QuietRows(n));
    QuietHolds(Then(c, es3), n);
    ThenOne(c, es4, Scan(Some(d), 0.0));
  }

  // -------------------------------------------------------- step by step

  /** A burst on an unlocked channel asks for a lock on it, two kilohertz wider on either side. */
  lemma BurstOutcome(c: State, b: Band, specBw: real)
    requires c.on && !c.locked && c.pending == None
    ensures b.s < b.e ==>
              var wider := Band(b.s - 0.002, b.e + 0.002);
              Next(c, Scan(Some(b), specBw)) == c.(hold := 18, extCount := 0, pending := Some(Lock(wider)))
    ensures b.e <= b.s ==> Next(c, Scan(Some(b), specBw)) == c
    ensures Next(c, Scan(None, specBw)) == c
  {
  }

  /**
   * A lock takes the band asked for, less what lies outside the search band; with a decoder of fixed
   * width, a band of that width about its middle, inside the search band.
   */
  lemma LockOutcome(c: State, b: Band, specBw: real)
    requires c.on && c.pending == Some(Lock(b))
    ensures var d := Next(c, Apply(specBw));
            var lo, hi := Max(b.s, c.search.s), Min(b.e, c.search.e);
            && d.pending == None && d.on && d.search == c.search && d.hold == c.hold
            && (hi <= lo ==> d == c.(pending := None))
            && (lo < hi ==> d.locked)
            && (lo < hi && specBw <= 0.0 ==> d.band.s == lo && d.band.e == hi)
            && (lo < hi && specBw > 0.0 ==>
                  var l, h := (lo + hi) / 2.0 - specBw / 2000000.0, (lo + hi) / 2.0 + specBw / 2000000.0;
                  && d.band.s == Max(l, c.search.s) && d.band.e == Min(h, c.search.e)
                  && (c.search.s <= l && h <= c.search.e ==> d.band.e - d.band.s == specBw / 1000000.0))
  {
  }

  /** Arming over a band, one burst in it and its lock: detect mode narrows to the burst. */
  lemma ArmedLocksBurst(c: State, b: Band)
    requires !c.on && c.pending == None && b.s < b.e
    ensures var d := Then(c, [Arm, Scan(Some(b), 0.0), Apply(0.0)]);
            var lo, hi := Max(b.s - 0.002, c.band.s), Min(b.e + 0.002, c.band.e);
            && d.search == c.band
            && (lo < hi ==> d.locked && d.band == Band(lo, hi))
            && (hi <= lo ==> !d.locked && d.band == c.band)
  {
    hide Next;
    var p, s := Apply(0.0), Scan(Some(b), 0.0);
    assert [Arm, s, p] == [] + [Arm] + [s] + [p];
    ThenOne(c, [], Arm);
    ThenOne(c, [] + [Arm], s);
    ThenOne(c, [] + [Arm] + [s], p);
    ArmOutcome(c);
    var u := Next(c, Arm);
    BurstOutcome(u, b, 0.0);
    LockOutcome(Next(u, s), Band(b.s - 0.002, b.e + 0.002), 0.0);
  }

  /** While locked, a burst inside the band, or any burst under a fixed width, only keeps the lock alive. */
  lemma InsideOutcome(c: State, b: Band, specBw: real)
    requires c.on && c.locked && c.pending == None && b.s < b.e
    requires specBw > 0.0 || (c.band.s <= b.s && b.e <= c.band.e)
    ensures Next(c, Scan(Some(b), specBw)) == c.(hold := 18, extCount := 0)
  {
  }

  /** A row without a burst counts the lock down, and ends it when the count is used up. */
  lemma QuietOutcome(c: State, specBw: real)
    requires c.on && c.locked && c.pending == None
    ensures Next(c, Scan(None, specBw)) ==
              c.(hold := c.hold - 1, pending := if c.hold <= 1 then Some(Release(c.search)) else None)
  {
  }

  /** A release puts back its band and forgets the counts; on a disarmed channel nothing happens. */
  lemma ReleaseOutcome(c: State, b: Band, specBw: real)
    requires c.pending == Some(Release(b))
    ensures c.on ==>
              var d := c.(pending := None, band := b, locked := false, hold := 0, extCount := 0, resized := false);
              Next(c, Apply(specBw)) == d
    ensures !c.on ==> Next(c, Apply(specBw)) == c.(pending := None)
  {
  }

  /** Three rows outside the band: the lock takes them in, with two kilohertz to spare, inside the search band. */
  lemma WidenOutcome(c: State, a: Band, b: Band, d: Band)
    requires c.on && c.locked && c.pending == None && c.extCount == 0
    requires forall x :: x in [a, b, d] ==> x.s < x.e && (x.s < c.band.s || c.band.e < x.e)
    requires c.search.s <= c.band.s < c.band.e <= c.search.e
    ensures var t := Next(Next(Next(Next(c, Scan(Some(a), 0.0)), Scan(Some(b), 0.0)), Scan(Some(d), 0.0)), Apply(0.0));
            && t.locked && t.search == c.search
            && t.band.s == Max(c.search.s, Min(c.band.s, Min(Min(a.s, b.s), d.s) - 0.002))
            && t.band.e == Min(c.search.e, Max(c.band.e, Max(Max(a.e, b.e), d.e) + 0.002))
  {
    hide Next;
    assert a in [a, b, d] && b in [a, b, d] && d in [a, b, d];
    var s1 := Next(c, Scan(Some(a), 0.0));
    var s2 := Next(s1, Scan(Some(b), 0.0));
    var s3 := Next(s2, Scan(Some(d), 0.0));
    WidensOnThird(c, a, b, d);
    KeepsOn(c, a, b, d);
    LockOutcome(s3, Hull(c.band, Guarded(Hull(Hull(a, b), d))), 0.0);
  }

  lemma KeepsOn(c: State, a: Band, b: Band, d: Band)
    requires c.on
    ensures var t := Next(Next(Next(c, Scan(Some(a), 0.0)), Scan(Some(b), 0.0)), Scan(Some(d), 0.0));
            t.on && t.search == c.search && t.locked == c.locked
  {
    hide Guarded, Hull, Outside;
  }

  /** Arming searches the band the channel covers; arming twice does nothing. */
  lemma ArmOutcome(c: State)
    ensures c.on ==> Next(c, Arm) == c
    ensures !c.on ==>
              var d := c.(on := true, locked := false, search := c.band, hold := 0, extCount := 0, resized := false);
              Next(c, Arm) == d
  {
  }

  /** Disarming ends a lock; the channel is back on the band searched. */
  lemma DisarmOutcome(c: State)
    ensures !c.on ==> Next(c, Disarm) == c
    ensures c.on ==> var d := Next(c, Disarm);
              && !d.on && !d.locked && d.hold == 0 && d.extCount == 0 && d.search == c.search && d.pending == c.pending
              && d.band == if c.locked then c.search else c.band
  {
  }

  /** Redrawing moves the channel, and while it is armed without a lock what is searched as well. */
  lemma ResizeOutcome(c: State, to: Band)
    ensures var d := Next(c, Resize(to));
            && d.band == to && d.search == (if c.on && !c.locked then to else c.search)
            && d.on == c.on && d.locked == c.locked && d.hold == c.hold && d.extCount == c.extCount
            && d.pending == c.pending
  {
  }

  // ---------------------------------------------------------------- channel

  class Channel {
    var detOn: bool
    var detLocked: bool
    var s: real
    var e: real
    var detS: real
    var detE: real
    var detHold: int
    var detExtCnt: int
    var detExtS: real
    var detExtE: real
    var pending: Option<Pending>
    ghost var resized: bool

    ghost function View(): State
      reads this
    {
      State(detOn, detLocked, Band(s, e), Band(detS, detE), detHold, detExtCnt, Band(detExtS, detExtE),
            pending, resized)
    }

    constructor (lo: real, hi: real)
      ensures View() == Initial(Band(lo, hi)) && !detOn && !detLocked && s == lo && e == hi && pending == None
    {
      detOn, detLocked, s, e, detS, detE := false, false, lo, hi, lo, hi;
      detHold, detExtCnt, detExtS, detExtE, pending, resized := 0, 0, lo, hi, None, false;
    }

    method SetChannelDetect(on: bool)
      modifies this
      ensures View() == Next(old(View()), if on then Arm else Disarm)
    {
      hide Scanned, Applied;
      if on {
        if detOn {
          return;
        }
        detS, detE := s, e;
        detHold, detExtCnt := 0, 0;
        detLocked := false;
        detOn := true;
        resized := false;
      } else {
        if !detOn {
          return;
        }
        var was := detLocked;
        detOn, detLocked := false, false;
        detHold, detExtCnt := 0, 0;
        resized := false;
        if was {
          s, e := detS, detE;
        }
      }
    }

    method OnUpdateChRange(lo: real, hi: real)
      modifies this
      ensures View() == Next(old(View()), Resize(Band(lo, hi)))
    {
      hide Scanned, Applied;
      if detOn && !detLocked {
        detS, detE := lo, hi;
      }
      resized := resized || detLocked;
      s, e := lo, hi;
    }

    /** The scan's outcome for this channel: a lock, a wider lock, a release, or nothing. */
    method ScanRow(burst: Option<Band>, specBw: real)
      requires pending == None
      modifies this
      ensures View() == Next(old(View()), Scan(burst, specBw))
    {
      hide Applied;
      if !detOn {
        return;
      }
      if burst.Some? && burst.value.e > burst.value.s {
        var lo, hi := burst.value.s, burst.value.e;
        detHold := HOLD_FRAMES;
        if !detLocked {
          pending := Some(Lock(Band(lo - GUARD_MHZ, hi + GUARD_MHZ)));
          detExtCnt := 0;
        } else if specBw > 0.0 {
          detExtCnt := 0;
        } else if lo < s || hi > e {
          if detExtCnt == 0 {
            detExtS, detExtE := lo, hi;
          } else {
            detExtS, detExtE := Min(detExtS, lo), Max(detExtE, hi);
          }
          detExtCnt := detExtCnt + 1;
          if detExtCnt >= EXPAND_FRAMES {
            pending := Some(Lock(Band(Min(s, detExtS - GUARD_MHZ), Max(e, detExtE + GUARD_MHZ))));
            detExtCnt := 0;
          }
        } else {
          detExtCnt := 0;
        }
      } else if detLocked {
        detHold := detHold - 1;
        if detHold <= 0 {
          pending := Some(Release(Band(detS, detE)));
        }
      }
    }

    /** The lock itself: clamped to the search band, or as wide as the decoder needs. */
    method Narrow(b: Band, specBw: real)
      modifies this`s, this`e, this`detLocked, this`resized
      ensures var c, d := old(View()), LockBand(b, old(View()).search, specBw);
              View() == if d == None then c else c.(band := d.value, locked := true, resized := c.locked && c.resized)
    {
      var lo, hi := Max(b.s, detS), Min(b.e, detE);
      if hi <= lo {
        return;
      }
      var mid := (lo + hi) * 0.5;
      if specBw > 0.0 {
        var half := specBw * 0.0000005;
        lo, hi := Max(mid - half, detS), Min(mid + half, detE);
        if hi <= lo {
          return;
        }
      }
      s, e := lo, hi;
      if !detLocked {
        resized := false;
        detLocked := true;
      }
    }

    method ApplyPending(specBw: real)
      modifies this
      ensures View() == Next(old(View()), Apply(specBw))
    {
      hide Scanned, LockBand;
      if pending == None {
        return;
      }
      var d := pending.value;
      pending := None;
      if !detOn {
        return;
      }
      match d {
        case Lock(b) =>
          Narrow(b, specBw);
        case Release(b) =>
          s, e := b.s, b.e;
          detLocked := false;
          detHold, detExtCnt := 0, 0;
          resized := false;
      }
    }
  }
}
