/** How well an observation fits a known emitter, and which emitter it joins. */
module EmitterMatch {
  import opened Prelude
  import opened SignalRecords

  type Sight = Sighting<real>
  type Emit = Emitter<real>

  const W_FREQ := 0.6
  const W_MOD := 0.2
  const W_PROTO := 0.15
  const W_TAGS := 0.05
  const HIGH_SCORE := 0.85
  const JOIN_SCORE := 0.55

  function LowerChar(c: char): char {
    if 'A' <= c <= 'Z' then (c as int + 32) as char else c
  }

  function Lower(s: string): string {
    if s == "" then "" else [LowerChar(s[0])] + Lower(s[1..])
  }

  predicate Contains(s: string, t: string) {
    exists i :: 0 <= i <= |s| && t <= s[i..]
  }

  /** The emitter's tolerance window contains the observed frequency. */
  predicate Covers(s: Sight, e: Emit) {
    Abs(s.freqMhz - e.freqCenterMhz) * 1000.0 <= e.freqToleranceKhz
  }

  predicate BothMod(s: Sight, e: Emit) { s.modulation != "" && e.modulation != "" }
  predicate BothProto(s: Sight, e: Emit) { s.protocol != "" && e.protocol != "" }
  predicate BothTags(s: Sight, e: Emit) { s.tags != "" && e.tagsId != "" }

  predicate SameMod(s: Sight, e: Emit) { BothMod(s, e) && Lower(s.modulation) == Lower(e.modulation) }
  predicate SameProto(s: Sight, e: Emit) { BothProto(s, e) && Lower(s.protocol) == Lower(e.protocol) }
  predicate SameTags(s: Sight, e: Emit) { BothTags(s, e) && Contains(Lower(s.tags), Lower(e.tagsId)) }

  function Score(s: Sight, e: Emit): real {
    if !Covers(s, e) then 0.0
    else
      var total := W_FREQ + (if BothMod(s, e) then W_MOD else 0.0) + (if BothProto(s, e) then W_PROTO else 0.0)
                   + (if BothTags(s, e) then W_TAGS else 0.0);
      var score := W_FREQ + (if SameMod(s, e) then W_MOD else 0.0) + (if SameProto(s, e) then W_PROTO else 0.0)
                   + (if SameTags(s, e) then W_TAGS else 0.0);
      var normalized := score / total;
      if total == W_FREQ && normalized > 0.6 then 0.6 else normalized
  }

  /** A covered observation always scores enough to join; an uncovered one never does. */
  lemma ScoreRange(s: Sight, e: Emit)
    ensures Covers(s, e) ==> 0.6 <= Score(s, e) <= 1.0
    ensures !Covers(s, e) ==> Score(s, e) == 0.0
    ensures Score(s, e) >= JOIN_SCORE <==> Covers(s, e)
  {
  }

  /**
   * When a match counts as certain: something besides the frequency was given on both sides, the
   * modulations do not differ, and if the protocols differ, modulation and tags both agree.
   */
  lemma HighScoreExactly(s: Sight, e: Emit)
    ensures Score(s, e) >= HIGH_SCORE <==>
      && Covers(s, e)
      && (BothMod(s, e) || BothProto(s, e) || BothTags(s, e))
      && (BothMod(s, e) ==> SameMod(s, e))
      && (BothProto(s, e) ==> SameProto(s, e) || (SameMod(s, e) && SameTags(s, e)))
  {
  }

  /** The letters agree, whatever the case of the ASCII ones. */
  predicate SameLetter(a: char, b: char) {
    a == b || ('A' <= a <= 'Z' && b as int == a as int + 32) || ('A' <= b <= 'Z' && a as int == b as int + 32)
  }

  predicate SameText(a: string, b: string) {
    |a| == |b| && forall i :: 0 <= i < |a| ==> SameLetter(a[i], b[i])
  }

  predicate HasText(s: string, t: string) {
    exists i :: 0 <= i <= |s| - |t| && SameText(s[i..][..|t|], t)
  }

  lemma {:induction false} LowerAt(s: string)
    ensures |Lower(s)| == |s| && forall i :: 0 <= i < |s| ==> Lower(s)[i] == LowerChar(s[i])
  {
    if s != "" {
      LowerAt(s[1..]);
    }
  }

  /** Folding to lower case compares texts without regard to case, and finds one in another. */
  lemma FoldedExactly(a: string, b: string)
    ensures Lower(a) == Lower(b) <==> SameText(a, b)
    ensures Contains(Lower(a), Lower(b)) <==> HasText(a, b)
  {
    hide Lower, SameLetter, LowerChar;
    FoldedSame(a, b);
    LowerAt(a);
    LowerAt(b);
    if Contains(Lower(a), Lower(b)) {
      var i :| 0 <= i <= |a| && Lower(b) <= Lower(a)[i..];
      SliceFolded(a, i, |b|);
      assert Lower(a)[i..][..|b|] == Lower(b);
      FoldedSame(a[i..][..|b|], b);
    }
    if HasText(a, b) {
      var i :| 0 <= i <= |a| - |b| && SameText(a[i..][..|b|], b);
      FoldedSame(a[i..][..|b|], b);
      SliceFolded(a, i, |b|);
      assert Lower(b) <= Lower(a)[i..];
    }
  }

  lemma FoldedSame(a: string, b: string)
    ensures Lower(a) == Lower(b) <==> SameText(a, b)
  {
    hide Lower;
    LowerAt(a);
    LowerAt(b);
    if Lower(a) == Lower(b) {
      forall i | 0 <= i < |a|
        ensures SameLetter(a[i], b[i])
      {
        assert Lower(a)[i] == Lower(b)[i];
      }
    }
  }

  lemma SliceFolded(s: string, i: nat, n: nat)
    requires i + n <= |s|
    ensures |Lower(s)| == |s| && Lower(s[i..][..n]) == Lower(s)[i..][..n]
  {
    hide Lower, LowerChar;
    LowerAt(s);
    LowerAt(s[i..][..n]);
  }

  /**
   * The score in full: nothing when the frequencies are further apart than the tolerance in kilohertz;
   * 0.6 when nothing else is given on both sides; otherwise the share, weighted in hundredths, of what
   * agrees among what is given on both sides, frequency included.
   */
  lemma ScoreExactly(s: Sight, e: Emit)
    ensures var m := s.modulation != "" && e.modulation != "";
            var p := s.protocol != "" && e.protocol != "";
            var t := s.tags != "" && e.tagsId != "";
            var given := 60.0 + (if m then 20.0 else 0.0) + (if p then 15.0 else 0.0) + (if t then 5.0 else 0.0);
            var agreed := 60.0 + (if m && SameText(s.modulation, e.modulation) then 20.0 else 0.0)
                          + (if p && SameText(s.protocol, e.protocol) then 15.0 else 0.0)
                          + (if t && HasText(s.tags, e.tagsId) then 5.0 else 0.0);
            var apart := s.freqMhz - e.freqCenterMhz;
            Score(s, e) ==
              if apart * 1000.0 > e.freqToleranceKhz || -apart * 1000.0 > e.freqToleranceKhz then 0.0
              else if !m && !p && !t then 0.6
              else agreed / given
  {
    hide Lower, Contains, SameText, HasText;
    FoldedExactly(s.modulation, e.modulation);
    FoldedExactly(s.protocol, e.protocol);
    FoldedExactly(s.tags, e.tagsId);
  }

  // --------------------------------------------------- order of the emitters

  predicate Less(a: string, b: string) {
    if b == "" then false else if a == "" then true
    else a[0] < b[0] || (a[0] == b[0] && Less(a[1..], b[1..]))
  }

  lemma {:induction false} LessIrreflexive(a: string)
    ensures !Less(a, a)
  {
    if a != "" {
      LessIrreflexive(a[1..]);
    }
  }

  lemma {:induction false} LessTransitive(a: string, b: string, c: string)
    requires Less(a, b) && Less(b, c)
    ensures Less(a, c)
  {
    if a != "" && a[0] == b[0] && b[0] == c[0] {
      LessTransitive(a[1..], b[1..], c[1..]);
    }
  }

  lemma {:induction false} LessTotal(a: string, b: string)
    ensures a == b || Less(a, b) || Less(b, a)
  {
    if a != "" && b != "" && a[0] == b[0] {
      LessTotal(a[1..], b[1..]);
      assert a == [a[0]] + a[1..] && b == [b[0]] + b[1..];
    }
  }

  lemma {:induction false} LeastExists(keys: set<string>) returns (k: string)
    requires keys != {}
    ensures k in keys && forall j :: j in keys && j != k ==> Less(k, j)
    decreases keys
  {
    var c :| c in keys;
    var rest := keys - {c};
    k := c;
    assert forall j :: j in keys <==> j == c || j in rest;
    if rest != {} {
      var m := LeastExists(rest);
      LessTotal(c, m);
      if Less(m, c) {
        k := m;
      } else {
        forall j | j in rest
          ensures Less(c, j)
        {
          if j != m {
            LessTransitive(c, m, j);
          }
        }
      }
    }
  }

  /** u has the greatest score, and is the first in key order among those that do. */
  ghost predicate IsBest(emitters: map<string, Emit>, s: Sight, u: string) {
    && u in emitters
    && forall v :: v in emitters ==>
         && Score(s, emitters[v]) <= Score(s, emitters[u])
         && (Score(s, emitters[v]) == Score(s, emitters[u]) && v != u ==> Less(u, v))
  }

  lemma BestUnique(emitters: map<string, Emit>, s: Sight, u: string, v: string)
    requires IsBest(emitters, s, u) && IsBest(emitters, s, v)
    ensures u == v
  {
    if u != v {
      LessTransitive(u, v, u);
      LessIrreflexive(u);
    }
  }

  /** What the scan reports: the best emitter and its score, or -1 when there is none. */
  ghost predicate Scanned(emitters: map<string, Emit>, s: Sight, score: real, best: string) {
    if emitters == map[] then score == -1.0 && best == ""
    else IsBest(emitters, s, best) && score == Score(s, emitters[best])
  }

  /** The scan over the map in key order, keeping the first maximum. */
  method FindBest(emitters: map<string, Emit>, s: Sight) returns (score: real, uid: string)
    ensures Scanned(emitters, s, score, uid)
  {
    hide Score;
    score, uid := -1.0, "";
    var rest := emitters.Keys;
    while rest != {}
      invariant rest <= emitters.Keys
      invariant forall j, k :: j in emitters && j !in rest && k in rest ==> Less(j, k)
      invariant rest == emitters.Keys ==> score == -1.0 && uid == ""
      invariant rest != emitters.Keys ==> uid in emitters && uid !in rest && score == Score(s, emitters[uid])
      invariant forall v :: v in emitters && v !in rest ==>
        Score(s, emitters[v]) <= score && (Score(s, emitters[v]) == score && v != uid ==> Less(uid, v))
    {
      ghost var least := LeastExists(rest);
      var k :| k in rest && forall j :: j in rest && j != k ==> Less(k, j);
      var sc := Score(s, emitters[k]);
      ScoreNotNegative(s, emitters[k]);
      if sc > score {
        score, uid := sc, k;
      }
      rest := rest - {k};
    }
  }

  lemma ScoreNotNegative(s: Sight, e: Emit)
    ensures Score(s, e) >= 0.0
  {
    ScoreRange(s, e);
  }
}
