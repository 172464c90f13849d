/** Joining a recovered segment to the recording it continues. */
module HistMerge {
  import opened Prelude
  import opened LittleEndian
  import opened HistFormat
  import opened HistCodec
  import HistCompressor

  type Path = string

  /** Foreign parts: the compressor, float decoding, and the name a merged recording gets. */
  datatype Env = Env(z: Zstd, float: seq<Byte> -> real, mergedName: (Path, nat) -> Path)

  // --------------------------------------------------------------- headers

  function SampleRate(f: seq<Byte>): nat requires |f| >= HEADER { Field(f, 10, 8) }
  function CenterFreq(f: seq<Byte>): nat requires |f| >= HEADER { Field(f, 18, 8) }
  function RowRate(env: Env, f: seq<Byte>): real requires |f| >= HEADER { env.float(f[26..30]) }
  function DbMin(env: Env, f: seq<Byte>): real requires |f| >= HEADER { env.float(f[30..34]) }
  function DbMax(env: Env, f: seq<Byte>): real requires |f| >= HEADER { env.float(f[34..38]) }
  function StartUtc(f: seq<Byte>): nat requires |f| >= HEADER { Field(f, 38, 8) }
  function FftInputSize(f: seq<Byte>): nat requires |f| >= HEADER { Field(f, 50, 4) }

  function RowWidth(f: seq<Byte>): nat
    requires |f| >= HEADER
  {
    if FftSize(f) != 0 then FftSize(f) else FftInputSize(f)
  }

  function WholeRowsIn(bytes: nat, width: nat): nat
    requires width > 0
  {
    bytes / width
  }

  function RowCount(f: seq<Byte>): nat
    requires |f| >= HEADER
  {
    if Version(f) == FILE_VERSION_ZSTD then NumRows(f)
    else if Version(f) == FILE_VERSION && RowWidth(f) != 0 then WholeRowsIn(|f| - HEADER, RowWidth(f))
    else 0
  }

  /** A recording with at least one row. */
  predicate IsRecording(f: seq<Byte>) {
    HasHeader(f) && RowCount(f) > 0
  }

  predicate Close(a: real, b: real) {
    -0.01 < a - b < 0.01
  }

  predicate GeomMatch(env: Env, a: seq<Byte>, b: seq<Byte>)
    requires |a| >= HEADER && |b| >= HEADER
  {
    && FftSize(a) == FftSize(b) && FftInputSize(a) == FftInputSize(b)
    && SampleRate(a) == SampleRate(b) && CenterFreq(a) == CenterFreq(b)
    && Close(RowRate(env, a), RowRate(env, b))
    && Close(DbMin(env, a), DbMin(env, b)) && Close(DbMax(env, a), DbMax(env, b))
  }

  function EffectiveRate(env: Env, f: seq<Byte>): (r: real)
    requires |f| >= HEADER
    ensures r > 0.0
  {
    if RowRate(env, f) > 0.5 then RowRate(env, f) else 5.0
  }

  /** The second in which n rows recorded from the header's start time end. */
  function EndUtc(env: Env, f: seq<Byte>, n: nat): int
    requires |f| >= HEADER
  {
    StartUtc(f) + (n as real / EffectiveRate(env, f)).Floor
  }

  /** p, of the same geometry, started before s and ends within two seconds of where s begins. */
  predicate Precedes(env: Env, p: seq<Byte>, s: seq<Byte>)
    requires |s| >= HEADER
  {
    && IsRecording(p) && GeomMatch(env, p, s) && StartUtc(p) < StartUtc(s)
    && -2 <= StartUtc(s) - EndUtc(env, p, RowCount(p)) <= 2
  }

  // ------------------------------------------------------ what matching is for

  /** The level that byte v stands for in a recording whose bytes run from lo to hi dB. */
  function Decibels(lo: real, hi: real, v: Byte): (d: real)
    ensures v == 0 ==> d == lo
    ensures v == 255 ==> d == hi
  {
    lo + (hi - lo) * v as real / 255.0
  }

  /** Rows of s may stand under the header of m: every byte reads the same to a hundredth of a dB. */
  ghost predicate SameScale(env: Env, m: seq<Byte>, s: seq<Byte>) {
    && |m| >= 128 && |s| >= 128
    && Le(m[6..10]) == Le(s[6..10]) && Le(m[10..18]) == Le(s[10..18])
    && Le(m[18..26]) == Le(s[18..26]) && Le(m[50..54]) == Le(s[50..54])
    && -0.01 < env.float(m[26..30]) - env.float(s[26..30]) < 0.01
    && forall v: Byte ::
         -0.01 < Decibels(env.float(m[30..34]), env.float(m[34..38]), v)
                 - Decibels(env.float(s[30..34]), env.float(s[34..38]), v) < 0.01
  }

  lemma DecibelsClose(a: real, b: real, c: real, d: real, v: Byte)
    requires -0.01 < a - c < 0.01 && -0.01 < b - d < 0.01
    ensures -0.01 < Decibels(a, b, v) - Decibels(c, d, v) < 0.01
  {
    var x, y, q := a - c, b - d, v as real / 255.0;
    assert 0.0 <= q <= 1.0;
    assert Decibels(a, b, v) - Decibels(c, d, v) == x * (1.0 - q) + y * q;
    Weighted(x, y, q);
  }

  lemma Weighted(x: real, y: real, q: real)
    requires -0.01 < x < 0.01 && -0.01 < y < 0.01 && 0.0 <= q <= 1.0
    ensures -0.01 < x * (1.0 - q) + y * q < 0.01
  {
    var l, h := if x < y then x else y, if x < y then y else x;
    NotNegative(x - l, 1.0 - q);
    NotNegative(y - l, q);
    NotNegative(h - x, 1.0 - q);
    NotNegative(h - y, q);
    assert x * (1.0 - q) + y * q - l == (x - l) * (1.0 - q) + (y - l) * q;
    assert h - (x * (1.0 - q) + y * q) == (h - x) * (1.0 - q) + (h - y) * q;
  }

  lemma NotNegative(a: real, b: real)
    requires a >= 0.0 && b >= 0.0
    ensures a * b >= 0.0
  {
  }

  lemma MatchingScale(env: Env, m: seq<Byte>, s: seq<Byte>)
    requires |m| >= HEADER && |s| >= HEADER && GeomMatch(env, m, s)
    ensures SameScale(env, m, s)
  {
    hide Le, Decibels;
    forall v: Byte
      ensures -0.01 < Decibels(env.float(m[30..34]), env.float(m[34..38]), v)
                      - Decibels(env.float(s[30..34]), env.float(s[34..38]), v) < 0.01
    {
      DecibelsClose(env.float(m[30..34]), env.float(m[34..38]), env.float(s[30..34]), env.float(s[34..38]), v);
    }
  }

  /** Rows a second: what the header says, or five when that is half a row or less. */
  lemma RateIs(env: Env, f: seq<Byte>)
    requires |f| >= HEADER
    ensures env.float(f[26..30]) > 0.5 ==> EffectiveRate(env, f) == env.float(f[26..30])
    ensures env.float(f[26..30]) <= 0.5 ==> EffectiveRate(env, f) == 5.0
  {
  }

  /** s begins while p ends: between two seconds before and less than three seconds after p's last row. */
  lemma EndsThere(env: Env, p: seq<Byte>, d: int, n: nat)
    requires |p| >= HEADER
    ensures -2 <= StartUtc(p) + d - EndUtc(env, p, n) <= 2 <==>
              (d - 2) as real * EffectiveRate(env, p) <= n as real < (d + 3) as real * EffectiveRate(env, p)
  {
    hide Field, EffectiveRate;
    FloorWithin(n as real, EffectiveRate(env, p), d);
  }

  lemma FloorWithin(x: real, y: real, d: int)
    requires y > 0.0
    ensures -2 <= d - (x / y).Floor <= 2 <==> (d - 2) as real * y <= x < (d + 3) as real * y
  {
    var q := x / y;
    var lo, hi := (d - 2) as real, (d + 3) as real;
    QuotientCompare(x, y, lo);
    QuotientCompare(x, y, hi);
    FloorRange(q, d);
  }

  lemma QuotientCompare(x: real, y: real, c: real)
    requires y > 0.0
    ensures c * y <= x <==> c <= x / y
    ensures x < c * y <==> x / y < c
  {
    QuotientTimes(x, y);
    Compare(c, x / y, y);
    Compare(x / y, c, y);
  }

  lemma FloorRange(q: real, d: int)
    ensures -2 <= d - q.Floor <= 2 <==> (d - 2) as real <= q && q < (d + 3) as real
  {
  }

  lemma QuotientTimes(x: real, y: real)
    requires y > 0.0
    ensures x / y * y == x
  {
  }

  lemma Compare(a: real, b: real, y: real)
    requires y > 0.0
    ensures a * y <= b * y <==> a <= b
    ensures a * y < b * y <==> a < b
  {
    assert b * y - a * y == (b - a) * y;
  }

  /** What makes p the predecessor of s, field by field of the two headers. */
  ghost predicate FollowsOn(env: Env, p: seq<Byte>, s: seq<Byte>)
    requires |p| >= HEADER && |s| >= HEADER
  {
    var rate := env.float(p[26..30]);
    var perSecond := if rate > 0.5 then rate else 5.0;
    var d: int := Le(s[38..46]) - Le(p[38..46]);
    && Le(p[6..10]) == Le(s[6..10]) && Le(p[10..18]) == Le(s[10..18])
    && Le(p[18..26]) == Le(s[18..26]) && Le(p[50..54]) == Le(s[50..54])
    && -0.01 < rate - env.float(s[26..30]) < 0.01
    && -0.01 < env.float(p[30..34]) - env.float(s[30..34]) < 0.01
    && -0.01 < env.float(p[34..38]) - env.float(s[34..38]) < 0.01
    && d > 0 && (d - 2) as real * perSecond <= RowCount(p) as real < (d + 3) as real * perSecond
  }

  lemma PrecedesExactly(env: Env, p: seq<Byte>, s: seq<Byte>)
    requires |p| >= HEADER && |s| >= HEADER
    ensures Precedes(env, p, s) <==> IsRecording(p) && FollowsOn(env, p, s)
  {
    hide Le, RowCount, EndUtc, IsRecording;
    RateIs(env, p);
    EndsThere(env, p, StartUtc(s) - StartUtc(p), RowCount(p));
  }

  /** How many rows a recording holds: what a compressed one says, or the whole rows of a raw one. */
  lemma RowCountIs(f: seq<Byte>)
    requires |f| >= HEADER
    ensures var w := if Le(f[6..10]) != 0 then Le(f[6..10]) else Le(f[50..54]);
            && (Le(f[4..6]) == 4 ==> RowCount(f) == Le(f[110..118]))
            && (Le(f[4..6]) == 3 && w > 0 ==> RowCount(f) * w <= |f| - 128 < (RowCount(f) + 1) * w)
            && (Le(f[4..6]) != 4 && (Le(f[4..6]) != 3 || w == 0) ==> RowCount(f) == 0)
  {
    hide Le;
    var w := RowWidth(f);
    if w > 0 {
      WholeFits(|f| - HEADER, w);
      assert |f| - HEADER == (|f| - HEADER) / w * w + (|f| - HEADER) % w;
      assert ((|f| - HEADER) / w + 1) * w == (|f| - HEADER) / w * w + w;
    }
  }

  // ------------------------------------------------------------ predecessor

  datatype Disk = Disk(files: map<Path, seq<Byte>>)

  predicate Candidate(env: Env, d: Disk, seg: Path, p: Path)
    requires seg in d.files && |d.files[seg]| >= HEADER
  {
    p in d.files && p != seg && Precedes(env, d.files[p], d.files[seg])
  }

  /** The candidate that started last; of several the first listed. */
  ghost predicate IsBest(env: Env, d: Disk, seg: Path, listing: seq<Path>, best: Path)
    requires seg in d.files && |d.files[seg]| >= HEADER
  {
    && best in listing && Candidate(env, d, seg, best)
    && forall p :: p in listing && Candidate(env, d, seg, p) ==> StartUtc(d.files[p]) <= StartUtc(d.files[best])
  }

  // ----------------------------------------------------------------- merging

  /** The whole rows of a raw recording. */
  function RawRows(s: seq<Byte>): (rows: seq<Byte>)
    requires IsRecording(s) && Version(s) == FILE_VERSION
    ensures |rows| == RowCount(s) * RowWidth(s)
  {
    WholeFits(|s| - HEADER, RowWidth(s));
    s[HEADER..HEADER + RowCount(s) * RowWidth(s)]
  }

  /** The predecessor as a raw file: decompressed, or copied byte for byte. */
  ghost function RawOf(env: Env, p: seq<Byte>): Option<seq<Byte>> {
    if |p| >= HEADER && Version(p) == FILE_VERSION_ZSTD then DecompressedFile(env.z, p) else Some(p)
  }

  ghost function MergedBytes(env: Env, p: seq<Byte>, s: seq<Byte>): Option<seq<Byte>>
    requires IsRecording(s) && Version(s) == FILE_VERSION
  {
    match RawOf(env, p)
    case None => None
    case Some(raw) => Some(raw + RawRows(s))
  }

  function MergedPath(env: Env, best: Path, p: seq<Byte>, s: seq<Byte>): Path
    requires |p| >= HEADER && |s| >= HEADER
  {
    var end := EndUtc(env, p, RowCount(p) + RowCount(s));
    env.mergedName(best, if end >= 0 then end else 0)
  }

  /** n rows at a rate end in second number secs. */
  predicate Lasts(n: nat, rate: real, secs: nat) {
    secs as real * rate <= n as real < (secs + 1) as real * rate
  }

  lemma Sign(x: real, rate: real)
    requires rate > 0.0
    ensures x * rate > 0.0 ==> x > 0.0
  {
  }

  lemma EndIs(env: Env, p: seq<Byte>, n: nat)
    requires |p| >= HEADER
    ensures EndUtc(env, p, n) >= StartUtc(p)
    ensures Lasts(n, EffectiveRate(env, p), EndUtc(env, p, n) - StartUtc(p))
  {
    hide Field, EffectiveRate, EndUtc;
    var secs, rate := EndUtc(env, p, n) - StartUtc(p), EffectiveRate(env, p);
    EndsThere(env, p, secs + 2, n);
    EndsThere(env, p, secs - 2, n);
    Sign((secs + 1) as real, rate);
  }

  /** The name of the merged file says the second in which its last row ends, at the rate of the predecessor. */
  lemma {:induction false} MergedNameIs(env: Env, best: Path, p: seq<Byte>, s: seq<Byte>)
    requires |p| >= HEADER && |s| >= HEADER
    ensures var rows := RowCount(p) + RowCount(s);
            exists secs: nat ::
              Lasts(rows, EffectiveRate(env, p), secs)
              && MergedPath(env, best, p, s) == env.mergedName(best, Le(p[38..46]) + secs)
  {
    hide Le, RowCount, EndUtc, Lasts, EffectiveRate;
    var rows := RowCount(p) + RowCount(s);
    EndIs(env, p, rows);
    var secs: nat := EndUtc(env, p, rows) - StartUtc(p);
    assert Lasts(rows, EffectiveRate(env, p), secs);
    assert EndUtc(env, p, rows) == Le(p[38..46]) + secs;
    assert MergedPath(env, best, p, s) == env.mergedName(best, Le(p[38..46]) + secs);
  }

  /** The merged file is put in place, then the inputs are removed unless they carry its name. */
  function Replaced(d: Disk, best: Path, seg: Path, merged: Path, g: seq<Byte>): Disk {
    Disk((d.files[merged := g]) - ({best, seg} - {merged}))
  }

  // -------------------------------------------------------------- properties

  /** After a merge the inputs are gone, the merged file is there, and nothing else has changed ... */
  lemma OthersSurviveExactly(d: Disk, best: Path, seg: Path, merged: Path, g: seq<Byte>)
    ensures var t := Replaced(d, best, seg, merged, g);
            && merged in t.files && t.files[merged] == g
            && (best != merged ==> best !in t.files) && (seg != merged ==> seg !in t.files)
            && ((forall p :: p in d.files && p != best && p != seg ==> p in t.files && t.files[p] == d.files[p])
                <==> merged !in d.files || merged == best || merged == seg || d.files[merged] == g)
            && (forall p :: p in t.files && p != merged ==> p in d.files && t.files[p] == d.files[p])
  {
    var t := Replaced(d, best, seg, merged, g);
    if merged in d.files && merged != best && merged != seg {
      assert t.files[merged] == g;
    }
  }

  lemma {:induction false} RowsAdd(a: nat, r: nat, b: nat, w: nat)
    requires w > 0 && r < w
    ensures (a * w + r + b * w) / w == a + b
  {
    assert a * w + b * w == (a + b) * w;
    CeilOf(a * w + r + b * w, w, a + b);
  }

  lemma HeaderKept(raw: seq<Byte>, rows: seq<Byte>)
    requires |raw| >= HEADER
    ensures var g := raw + rows;
            && |g| >= HEADER && g[..HEADER] == raw[..HEADER] && Version(g) == Version(raw) && FftSize(g) == FftSize(raw)
            && StartUtc(g) == StartUtc(raw) && FftInputSize(g) == FftInputSize(raw) && g[..4] == raw[..4]
            && NumRows(g) == NumRows(raw)
  {
    hide Le;
    var g := raw + rows;
    assert g[..HEADER] == raw[..HEADER];
    forall o: nat, n: nat | o + n <= HEADER
      ensures Field(g, o, n) == Field(raw, o, n)
    {
      assert g[o..o + n] == raw[o..o + n];
    }
    assert g[..4] == raw[..4];
  }

  /** g is a raw recording, p with the rows of s counted in: same fields, so same start time and width. */
  ghost predicate Continues(p: seq<Byte>, s: seq<Byte>, g: seq<Byte>) {
    && |p| >= HEADER && |s| >= HEADER && IsRecording(g) && Version(g) == FILE_VERSION
    && g[6..RESERVED] == p[6..RESERVED] && StartUtc(g) == StartUtc(p) && RowWidth(g) == RowWidth(p) == RowWidth(s)
    && RowCount(g) == RowCount(p) + RowCount(s)
  }

  /** The body of g is the rows of p followed by the rows of s. */
  ghost predicate RowsJoined(p: seq<Byte>, s: seq<Byte>, g: seq<Byte>) {
    && IsRecording(p) && Version(p) == FILE_VERSION && IsRecording(s) && Version(s) == FILE_VERSION && |g| >= HEADER
    && g[HEADER..] == RawRows(p) + RawRows(s)
  }

  /**
   * Appending a segment to a raw recording it follows: header and start time are the predecessor's,
   * and the row counts add up. The rows themselves are the predecessor's followed by the segment's
   * exactly when the predecessor ends with a whole row.
   */
  lemma RawMerge(env: Env, p: seq<Byte>, s: seq<Byte>, g: seq<Byte>)
    requires IsRecording(s) && Version(s) == FILE_VERSION
    requires Precedes(env, p, s) && Version(p) == FILE_VERSION && MergedBytes(env, p, s) == Some(g)
    ensures Continues(p, s, g) && g[..HEADER] == p[..HEADER] && RowWidth(p) > 0
    ensures RowsJoined(p, s, g) <==> (|p| - HEADER) % RowWidth(p) == 0
  {
    hide Precedes, RawRows, DecompressedFile, Continues, RowsJoined, RowWidth, RowCount, IsRecording, Version;
    RecordingHeader(s);
    SameWidth(env, p, s);
    RecordingHeader(p);
    assert g == p + RawRows(s);
    MergeCounts(p, s, g);
    MergeRows(p, s, g);
  }

  lemma RecordingHeader(p: seq<Byte>)
    requires IsRecording(p)
    ensures |p| >= HEADER && (Version(p) == FILE_VERSION ==> RowWidth(p) > 0)
  {
    hide Field;
  }

  lemma RawCount(f: seq<Byte>, w: nat)
    requires |f| >= HEADER && Version(f) == FILE_VERSION && RowWidth(f) == w && w > 0
    ensures RowCount(f) == (|f| - HEADER) / w
  {
    hide Field;
  }

  lemma MergeCounts(p: seq<Byte>, s: seq<Byte>, g: seq<Byte>)
    requires IsRecording(p) && Version(p) == FILE_VERSION && IsRecording(s) && Version(s) == FILE_VERSION
    requires RowWidth(p) == RowWidth(s) && g == p + RawRows(s)
    ensures Continues(p, s, g) && g[..HEADER] == p[..HEADER]
  {
    hide Version, FftSize, FftInputSize, StartUtc, NumRows, RawRows, RowCount;
    RecordingHeader(p);
    RecordingHeader(s);
    var w, n := RowWidth(p), |p| - HEADER;
    HeaderKept(p, RawRows(s));
    assert g[6..RESERVED] == g[..HEADER][6..RESERVED] == p[6..RESERVED];
    RawCount(p, w);
    RawCount(g, w);
    assert n == n / w * w + n % w;
    RowsAdd(n / w, n % w, RowCount(s), w);
  }

  lemma MergeRows(p: seq<Byte>, s: seq<Byte>, g: seq<Byte>)
    requires IsRecording(p) && Version(p) == FILE_VERSION && IsRecording(s) && Version(s) == FILE_VERSION
    requires RowWidth(p) == RowWidth(s) && RowWidth(p) > 0 && g == p + RawRows(s)
    ensures RowsJoined(p, s, g) <==> (|p| - HEADER) % RowWidth(p) == 0
  {
    hide Version, FftSize, FftInputSize, NumRows, RawRows, RowCount, RowWidth;
    RecordingHeader(p);
    var w, n := RowWidth(p), |p| - HEADER;
    RawCount(p, w);
    WholeFits(n, w);
    BodyOf(p, RawRows(s));
    RawRowsOf(p);
    if n % w == 0 {
      assert p[HEADER..HEADER + n / w * w] == p[HEADER..];
    } else {
      assert |g[HEADER..]| != |RawRows(p) + RawRows(s)|;
    }
  }

  lemma BodyOf(p: seq<Byte>, rows: seq<Byte>)
    requires |p| >= HEADER
    ensures (p + rows)[HEADER..] == p[HEADER..] + rows
  {
  }

  lemma RawRowsOf(p: seq<Byte>)
    requires IsRecording(p) && Version(p) == FILE_VERSION
    ensures HEADER + RowCount(p) * RowWidth(p) <= |p| && RawRows(p) == p[HEADER..HEADER + RowCount(p) * RowWidth(p)]
  {
    hide Field;
    WholeFits(|p| - HEADER, RowWidth(p));
  }

  lemma SameWidth(env: Env, p: seq<Byte>, s: seq<Byte>)
    requires |s| >= HEADER && Precedes(env, p, s)
    ensures IsRecording(p) && RowWidth(p) == RowWidth(s)
  {
    hide Field;
  }

  /** What the header of a compressed recording says: the fields of the raw one, and its number of rows. */
  lemma CompressedFields(env: Env, f: seq<Byte>, blockRows: nat)
    requires Compressible(f) && blockRows > 0 && FileFits(env.z, f, blockRows)
    ensures var g := CompressedFile(env.z, f, blockRows);
            g.Some? && |g.value| >= HEADER && Version(g.value) == FILE_VERSION_ZSTD && NumRows(g.value) == WholeRows(f)
            && g.value[6..RESERVED] == f[6..RESERVED]
  {
    hide Container, FileFits, Compressible, Field, Holds, CompressedFile;
    CompressibleHasHeader(f);
    var p := CompressedHolds(env.z, f, blockRows);
    ReadableVersion(env.z, p, CompressedFile(env.z, f, blockRows).value);
    assert f[..HEADER][6..RESERVED] == f[6..RESERVED];
  }

  lemma ReadableVersion(z: Zstd, p: Parts, g: seq<Byte>)
    requires Holds(z, p, g)
    ensures |g| >= HEADER && Version(g) == FILE_VERSION_ZSTD && NumRows(g) == p.n
    ensures |p.h| == HEADER && g[6..RESERVED] == p.h[6..RESERVED]
  {
    hide Field, Container, Fits;
    ContainerHeader(z, p, g);
    assert g[..HEADER][6..RESERVED] == g[6..RESERVED];
  }

  lemma SameFields(a: seq<Byte>, b: seq<Byte>)
    requires |a| >= HEADER && |b| >= HEADER && a[6..RESERVED] == b[6..RESERVED]
    ensures FftSize(a) == FftSize(b) && RowWidth(a) == RowWidth(b) && StartUtc(a) == StartUtc(b)
  {
    hide Le;
    forall o: nat, n: nat | 6 <= o && o + n <= RESERVED
      ensures Field(a, o, n) == Field(b, o, n)
    {
      SliceOfSlice(a, 6, RESERVED, o, o + n);
      SliceOfSlice(b, 6, RESERVED, o, o + n);
    }
  }

  /** A recording as it comes back from compression: reserved bytes clear, whole rows only. */
  function Restored(f: seq<Byte>): seq<Byte>
    requires |f| >= HEADER && FftSize(f) != 0
  {
    f[..RESERVED] + Cleared() + WholeBody(f)
  }

  lemma RestoredIsRaw(f: seq<Byte>)
    requires Compressible(f)
    ensures |f| >= HEADER && FftSize(f) != 0
    ensures var r := Restored(f);
            && IsRecording(r) && Version(r) == FILE_VERSION && RowWidth(r) == FftSize(f) && RowCount(r) == WholeRows(f)
            && r[..RESERVED] == f[..RESERVED] && |r| == HEADER + WholeRows(f) * FftSize(f)
            && r[HEADER..] == WholeBody(f)
  {
    hide Le, WholeBody;
    var r := Restored(f);
    var w, n := FftSize(f), WholeRows(f);
    assert r[..RESERVED] == f[..RESERVED] && r[HEADER..] == WholeBody(f);
    forall o: nat, k: nat | o + k <= RESERVED
      ensures Field(r, o, k) == Field(f, o, k)
    {
      SliceOfSlice(r, 0, RESERVED, o, o + k);
      SliceOfSlice(f, 0, RESERVED, o, o + k);
    }
    assert r[..4] == r[..RESERVED][..4] == f[..4];
    WholeFits(n * w, w);
    CeilOf(n * w, w, n);
  }

  /**
   * Merging onto a recording that has meanwhile been compressed gives what merging onto the recording
   * itself gives, less any torn last row and with the reserved header bytes clear: the rows of both,
   * under the start time and the width of the predecessor.
   */
  lemma CompressedMerge(env: Env, f: seq<Byte>, blockRows: nat, s: seq<Byte>)
    requires Lossless(env.z) && Compressible(f) && blockRows > 0 && FileFits(env.z, f, blockRows)
    requires IsRecording(s) && Version(s) == FILE_VERSION
    ensures CompressedFile(env.z, f, blockRows).Some?
    ensures var g := CompressedFile(env.z, f, blockRows).value;
            var m := f[..RESERVED] + Cleared() + WholeBody(f) + RawRows(s);
            && |g| >= HEADER && RowCount(g) == WholeRows(f) && MergedBytes(env, g, s) == Some(m)
            && (Precedes(env, g, s) ==> Continues(g, s, m) && m[HEADER..] == WholeBody(f) + RawRows(s))
  {
    hide CompressedFile, DecompressedFile, FileFits, Compressible, Field, WholeBody, Cleared, RawRows, Lossless,
         Precedes, Continues;
    CompressibleHasHeader(f);
    CompressedFields(env, f, blockRows);
    HistRoundTrip(env.z, f, blockRows);
    var g := CompressedFile(env.z, f, blockRows).value;
    if Precedes(env, g, s) {
      SameWidth(env, g, s);
      CompressedContinues(f, g, s);
    }
  }

  lemma CompressedContinues(f: seq<Byte>, g: seq<Byte>, s: seq<Byte>)
    requires Compressible(f) && |f| >= HEADER && FftSize(f) != 0 && |g| >= HEADER && g[6..RESERVED] == f[6..RESERVED]
    requires RowCount(g) == WholeRows(f)
    requires IsRecording(s) && Version(s) == FILE_VERSION && RowWidth(g) == RowWidth(s)
    ensures var m := f[..RESERVED] + Cleared() + WholeBody(f) + RawRows(s);
            Continues(g, s, m) && m[HEADER..] == WholeBody(f) + RawRows(s)
  {
    hide Field, WholeBody, Cleared, RawRows, Version, StartUtc, RowCount, RowWidth, IsRecording;
    var r := Restored(f);
    RestoredIsRaw(f);
    SameFields(g, f);
    assert r[6..RESERVED] == r[..RESERVED][6..RESERVED] == f[6..RESERVED];
    SameFields(r, g);
    MergeCounts(r, s, r + RawRows(s));
    BodyOf(r, RawRows(s));
  }

  // ---------------------------------------------------------------- archive

  class Archive {
    var disk: Disk

    constructor (files: map<Path, seq<Byte>>)
      ensures disk == Disk(files)
    {
      disk := Disk(files);
    }

    method FindPredecessor(env: Env, listing: seq<Path>, seg: Path) returns (best: Option<Path>)
      requires seg in disk.files && |disk.files[seg]| >= HEADER
      ensures best == None ==> forall p :: p in listing ==> !Candidate(env, disk, seg, p)
      ensures best.Some? ==> IsBest(env, disk, seg, listing, best.value)
      ensures best.Some? ==> |disk.files[best.value]| >= HEADER && IsRecording(disk.files[best.value])
      ensures best.Some? ==> best.value != seg && FollowsOn(env, disk.files[best.value], disk.files[seg])
    {
      hide Precedes, Field, IsRecording, FollowsOn;
      best := None;
      var i := 0;
      while i < |listing|
        invariant 0 <= i <= |listing|
        invariant best == None ==> forall p :: p in listing[..i] ==> !Candidate(env, disk, seg, p)
        invariant best.Some? ==> IsBest(env, disk, seg, listing[..i], best.value)
      {
        var p := listing[i];
        assert listing[..i + 1] == listing[..i] + [p];
        if Candidate(env, disk, seg, p) {
          PrecedesHasHeader(env, disk.files[p], disk.files[seg]);
          if best.Some? {
            PrecedesHasHeader(env, disk.files[best.value], disk.files[seg]);
          }
          if best == None || StartUtc(disk.files[p]) > StartUtc(disk.files[best.value]) {
            best := Some(p);
          }
        }
        i := i + 1;
      }
      assert listing[..i] == listing;
      if best.Some? {
        PrecedesHasHeader(env, disk.files[best.value], disk.files[seg]);
        PrecedesExactly(env, disk.files[best.value], disk.files[seg]);
      }
    }

    /**
     * The segment is joined to the candidate that started last. Without a candidate, with one that
     * cannot be decompressed, or when the new file cannot be renamed, both inputs stay as they are.
     */
    method MergeHistSegment(env: Env, listing: seq<Path>, seg: Path, renames: bool)
      returns (merged: Option<Path>, ghost best: Option<Path>)
      modifies this
      ensures merged == None ==> disk == old(disk)
      ensures best.Some? ==> IsSegment(old(disk), seg) && IsBest(env, old(disk), seg, listing, best.value)
      ensures best == None && IsSegment(old(disk), seg) ==>
                forall p :: p in listing ==> !Candidate(env, old(disk), seg, p)
      ensures best.Some? && (merged == None ==> renames) ==>
        (merged == None <==> MergedBytes(env, old(disk).files[best.value], old(disk).files[seg]) == None)
      ensures merged.Some? ==>
        && renames && best.Some? && IsRecording(old(disk).files[best.value])
        && merged.value == MergedPath(env, best.value, old(disk).files[best.value], old(disk).files[seg])
        && MergedBytes(env, old(disk).files[best.value], old(disk).files[seg]).Some?
        && disk == Replaced(old(disk), best.value, seg, merged.value,
                            MergedBytes(env, old(disk).files[best.value], old(disk).files[seg]).value)
      ensures merged.Some? ==>
        && merged.value in disk.files && SameScale(env, disk.files[merged.value], old(disk).files[seg])
        && Le(disk.files[merged.value][38..46]) == Le(old(disk).files[best.value][38..46])
    {
      hide Field, Precedes, DecompressedFile, RawRows, Candidate, EndUtc, MergedPath, SameScale, FollowsOn;
      ghost var was := disk;
      best := None;
      if seg !in disk.files || !IsRecording(disk.files[seg]) || Version(disk.files[seg]) != FILE_VERSION {
        return None, None;
      }
      var s := disk.files[seg];
      var found := FindPredecessor(env, listing, seg);
      if found == None {
        return None, None;
      }
      best := found;
      CandidateIsRecording(env, disk, seg, found.value);
      var p := disk.files[found.value];
      var raw := Some(p);
      if Version(p) == FILE_VERSION_ZSTD {
        raw := HistCompressor.DecompressHist(env.z, p);
      }
      if raw == None || !renames {
        return None, best;
      }
      var g := raw.value + RawRows(s);
      MergedScale(env, p, s, g);
      var path := MergedPath(env, found.value, p, s);
      disk := Replaced(disk, found.value, seg, path, g);
      merged := Some(path);
    }
  }

  /** Whether it was compressed or not, the header fields of the predecessor are those of the merged file. */
  lemma RawKeepsFields(env: Env, p: seq<Byte>)
    requires |p| >= HEADER && RawOf(env, p).Some?
    ensures |RawOf(env, p).value| >= HEADER && RawOf(env, p).value[6..RESERVED] == p[6..RESERVED]
  {
    hide Field, DecodeTo, Readable, NumBlocks;
    var raw := RawOf(env, p).value;
    if Version(p) == FILE_VERSION_ZSTD {
      var h := RawHeader(p[..HEADER]);
      assert raw[..HEADER] == h;
      RawHeaderKeeps(p[..HEADER]);
      SliceOfSlice(raw, 0, HEADER, 6, RESERVED);
      SliceOfSlice(p, 0, HEADER, 6, RESERVED);
    }
  }

  lemma RawHeaderKeeps(h: seq<Byte>)
    requires |h| == HEADER
    ensures RawHeader(h)[6..RESERVED] == h[6..RESERVED]
  {
    SetFieldElsewhere(h, 4, 2, FILE_VERSION, 6, RESERVED - 6);
    var g := SetField(h, 4, 2, FILE_VERSION);
    assert RawHeader(h)[6..RESERVED] == g[6..RESERVED];
  }

  lemma MergedScale(env: Env, p: seq<Byte>, s: seq<Byte>, g: seq<Byte>)
    requires |p| >= HEADER && |s| >= HEADER && IsRecording(s) && Version(s) == FILE_VERSION
    requires Precedes(env, p, s) && MergedBytes(env, p, s) == Some(g)
    ensures SameScale(env, g, s) && Le(g[38..46]) == Le(p[38..46])
  {
    hide Le, RawOf, RawRows, IsRecording, Version, Close;
    RawKeepsFields(env, p);
    var raw := RawOf(env, p).value;
    assert g[6..RESERVED] == raw[6..RESERVED];
    SameGeometry(env, p, g, s);
    MatchingScale(env, g, s);
  }

  lemma SameGeometry(env: Env, p: seq<Byte>, g: seq<Byte>, s: seq<Byte>)
    requires |p| >= HEADER && |g| >= HEADER && |s| >= HEADER && g[6..RESERVED] == p[6..RESERVED]
    requires Precedes(env, p, s)
    ensures GeomMatch(env, g, s) && Le(g[38..46]) == Le(p[38..46])
  {
    hide Le, Close, Precedes;
    SameSlice(g, p, 6, 4);
    SameSlice(g, p, 10, 8);
    SameSlice(g, p, 18, 8);
    SameSlice(g, p, 26, 4);
    SameSlice(g, p, 30, 4);
    SameSlice(g, p, 34, 4);
    SameSlice(g, p, 38, 8);
    SameSlice(g, p, 50, 4);
    GeometryOf(env, p, s);
  }

  lemma GeometryOf(env: Env, p: seq<Byte>, s: seq<Byte>)
    requires |p| >= HEADER && |s| >= HEADER && Precedes(env, p, s)
    ensures GeomMatch(env, p, s)
  {
    hide Field;
  }

  lemma SameSlice(g: seq<Byte>, p: seq<Byte>, o: nat, n: nat)
    requires |p| >= HEADER && |g| >= HEADER && g[6..RESERVED] == p[6..RESERVED] && 6 <= o && o + n <= RESERVED
    ensures g[o..o + n] == p[o..o + n]
  {
    SliceOfSlice(g, 6, RESERVED, o, o + n);
    SliceOfSlice(p, 6, RESERVED, o, o + n);
  }

  predicate IsSegment(d: Disk, seg: Path) {
    seg in d.files && IsRecording(d.files[seg]) && Version(d.files[seg]) == FILE_VERSION
  }

  lemma CandidateIsRecording(env: Env, d: Disk, seg: Path, p: Path)
    requires seg in d.files && |d.files[seg]| >= HEADER && Candidate(env, d, seg, p)
    ensures p in d.files && IsRecording(d.files[p]) && Precedes(env, d.files[p], d.files[seg])
  {
    hide Field;
  }

  lemma PrecedesHasHeader(env: Env, p: seq<Byte>, s: seq<Byte>)
    requires |s| >= HEADER && Precedes(env, p, s)
    ensures |p| >= HEADER
  {
  }
}
