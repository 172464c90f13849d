/** Block-wise compression of a finished recording, and its exact inverse. */
module HistCodec {
  import opened Prelude
  import opened LittleEndian
  import opened HistFormat

  /** Rows per block: about 2 MB raw, between 64 and 1024. */
  function DefaultBlockRows(fftSize: nat): (r: nat)
    ensures 64 <= r <= 1024
  {
    if fftSize == 0 then 256
    else
      var br := 2 * 1024 * 1024 / fftSize;
      if br < 64 then 64 else if br > 1024 then 1024 else br
  }

  function MinNat(a: nat, b: nat): nat {
    if a <= b then a else b
  }

  // --------------------------------------------------------------- blocks

  datatype Block = Block(rows: nat, raw: seq<Byte>)

  predicate WellSized(b: Block, w: nat) {
    |b.raw| == b.rows * w
  }

  predicate GoodBlock(b: Block, w: nat, blockRows: nat) {
    0 < b.rows <= blockRows && WellSized(b, w)
  }

  lemma TakeRows(n: nat, k: nat, w: nat)
    requires k <= n
    ensures 0 <= k * w <= n * w && n * w - k * w == (n - k) * w
  {
    assert n * w == (k + (n - k)) * w == k * w + (n - k) * w;
  }

  /** n rows cut into blocks of blockRows rows, the last one possibly shorter. */
  function Blocks(body: seq<Byte>, w: nat, n: nat, blockRows: nat): (bs: seq<Block>)
    requires |body| == n * w && blockRows > 0
    ensures forall i :: 0 <= i < |bs| ==> GoodBlock(bs[i], w, blockRows)
    decreases n
  {
    if n == 0 then []
    else
      var k := MinNat(blockRows, n);
      TakeRows(n, k, w);
      [Block(k, body[..k * w])] + Blocks(body[k * w..], w, n - k, blockRows)
  }

  function CountBlocks(n: nat, blockRows: nat): nat
    requires blockRows > 0
  {
    (n + blockRows - 1) / blockRows
  }

  lemma {:induction false} BlocksCount(body: seq<Byte>, w: nat, n: nat, blockRows: nat)
    requires |body| == n * w && blockRows > 0
    ensures |Blocks(body, w, n, blockRows)| == CountBlocks(n, blockRows)
    decreases n
  {
    if n > 0 {
      var k := MinNat(blockRows, n);
      TakeRows(n, k, w);
      BlocksCount(body[k * w..], w, n - k, blockRows);
      CeilStep(n, k, blockRows);
    } else {
      CeilOf(blockRows - 1, blockRows, 0);
    }
  }

  lemma {:induction false} CeilOf(a: nat, d: nat, q: nat)
    requires d > 0 && q * d <= a < q * d + d
    ensures a / d == q
  {
    var r := a / d;
    assert r < q ==> (r + 1) * d <= q * d;
    assert r > q ==> (q + 1) * d <= r * d;
  }

  lemma {:induction false} CeilStep(n: nat, k: nat, d: nat)
    requires d > 0 && n > 0 && k == MinNat(d, n)
    ensures CountBlocks(n, d) == 1 + CountBlocks(n - k, d)
  {
    var q := CountBlocks(n - k, d);
    assert q * d <= n - k + d - 1 < q * d + d;
    assert (q + 1) * d == q * d + d;
    if k < d {
      CeilOf(d - 1, d, 0);
      CeilOf(n + d - 1, d, 1);
    } else {
      CeilOf(n + d - 1, d, q + 1);
    }
  }

  function Joined(bs: seq<Block>): seq<Byte> {
    if bs == [] then [] else bs[0].raw + Joined(bs[1..])
  }

  /** The blocks are the rows, cut: nothing lost, repeated or reordered. */
  lemma {:induction false} BlocksJoin(body: seq<Byte>, w: nat, n: nat, blockRows: nat)
    requires |body| == n * w && blockRows > 0
    ensures Joined(Blocks(body, w, n, blockRows)) == body
    decreases n
  {
    if n > 0 {
      var k := MinNat(blockRows, n);
      TakeRows(n, k, w);
      BlocksJoin(body[k * w..], w, n - k, blockRows);
      assert Blocks(body, w, n, blockRows)[1..] == Blocks(body[k * w..], w, n - k, blockRows);
      assert body == body[..k * w] + body[k * w..];
    }
  }

  // ------------------------------------------ the container as a function

  ghost predicate AllSized(bs: seq<Block>, w: nat) {
    forall i :: 0 <= i < |bs| ==> WellSized(bs[i], w)
  }

  ghost function Frame(z: Zstd, b: Block, w: nat): seq<Byte>
    requires WellSized(b, w)
  {
    z.compress(DeltaRows(b.raw, w, b.rows))
  }

  /** The frames one after the other. */
  ghost function Payload(z: Zstd, bs: seq<Block>, w: nat): seq<Byte>
    requires AllSized(bs, w)
  {
    if bs == [] then [] else Payload(z, bs[..|bs| - 1], w) + Frame(z, bs[|bs| - 1], w)
  }

  /** One index entry per block: where its frame starts, how long it is, how many rows it holds. */
  ghost function Index(z: Zstd, bs: seq<Block>, w: nat): (es: seq<Entry>)
    requires AllSized(bs, w)
    ensures |es| == |bs|
  {
    if bs == [] then []
    else
      var front, last := bs[..|bs| - 1], bs[|bs| - 1];
      Index(z, front, w) + [Entry(HEADER + |Payload(z, front, w)|, |Frame(z, last, w)|, last.rows)]
  }

  lemma {:induction false} IndexAt(z: Zstd, bs: seq<Block>, w: nat, i: nat)
    requires AllSized(bs, w) && i < |bs|
    ensures var at := |Payload(z, bs[..i], w)|;
            var frame := Frame(z, bs[i], w);
            && Index(z, bs, w)[i] == Entry(HEADER + at, |frame|, bs[i].rows)
            && at + |frame| <= |Payload(z, bs, w)|
            && Payload(z, bs, w)[at..at + |frame|] == frame
  {
    hide Frame;
    var n := |bs| - 1;
    if i < n {
      IndexAt(z, bs[..n], w, i);
      assert bs[..n][..i] == bs[..i];
    }
  }

  /** Header, frames, index; the header says where the index is. */
  ghost function Container(z: Zstd, h: seq<Byte>, bs: seq<Block>, w: nat, n: nat, blockRows: nat): seq<Byte>
    requires |h| == HEADER && AllSized(bs, w)
  {
    var payload := Payload(z, bs, w);
    CompressedHeader(h, blockRows, |bs|, n, HEADER + |payload|) + payload + IndexBytes(Index(z, bs, w))
  }

  /** Which files the compressor takes: raw ones with at least one whole row. */
  predicate Compressible(f: seq<Byte>) {
    HasHeader(f) && Version(f) == FILE_VERSION && FftSize(f) != 0 && (|f| - HEADER) / FftSize(f) > 0
  }

  lemma WholeFits(a: nat, w: nat)
    requires w > 0
    ensures 0 <= a / w * w <= a
    ensures a / w * w == a <==> a % w == 0
  {
  }

  function WholeRows(f: seq<Byte>): (n: nat)
    requires |f| >= HEADER && FftSize(f) != 0
  {
    (|f| - HEADER) / FftSize(f)
  }

  /** The body without a torn last row. */
  function WholeBody(f: seq<Byte>): (body: seq<Byte>)
    requires |f| >= HEADER && FftSize(f) != 0
    ensures |body| == WholeRows(f) * FftSize(f)
  {
    WholeFits(|f| - HEADER, FftSize(f));
    f[HEADER..HEADER + WholeRows(f) * FftSize(f)]
  }

  function FileBlocks(f: seq<Byte>, blockRows: nat): (bs: seq<Block>)
    requires |f| >= HEADER && FftSize(f) != 0 && blockRows > 0
    ensures AllSized(bs, FftSize(f))
  {
    Blocks(WholeBody(f), FftSize(f), WholeRows(f), blockRows)
  }

  ghost function CompressedFile(z: Zstd, f: seq<Byte>, blockRows: nat): Option<seq<Byte>>
    requires blockRows > 0
  {
    if !Compressible(f) then None
    else Some(Container(z, f[..HEADER], FileBlocks(f, blockRows), FftSize(f), WholeRows(f), blockRows))
  }

  // ------------------------------------------------- reading the container

  predicate Readable(f: seq<Byte>) {
    && HasHeader(f) && Version(f) == FILE_VERSION_ZSTD && FftSize(f) != 0
    && Codec(f) == CODEC_ZSTD && NumBlocks(f) != 0 && BlockRows(f) != 0 && IndexOffset(f) != 0
    && IndexOffset(f) + ENTRY * NumBlocks(f) <= |f|
  }

  function EntryOf(f: seq<Byte>, b: nat): Entry
    requires Readable(f) && b < NumBlocks(f)
  {
    EntryAt(f, IndexOffset(f) + ENTRY * b)
  }

  predicate ColumnDelta(flags: nat) {
    (flags / FLAG_COL_DELTA) % 2 == 1
  }

  /** The rows an index entry stands for, or None when something does not check. */
  ghost function DecodeEntry(z: Zstd, f: seq<Byte>, e: Entry, w: nat, blockRows: nat, delta: bool): Option<seq<Byte>> {
    if e.rawRows == 0 || e.rawRows > blockRows || e.frameOffset + e.compLen > |f| then None
    else match z.decompress(f[e.frameOffset..e.frameOffset + e.compLen])
      case None => None
      case Some(d) =>
        if |d| != e.rawRows * w then None
        else if delta then Some(SumRows(d, w, e.rawRows))
        else Some(d)
  }

  ghost function DecodeBlock(z: Zstd, f: seq<Byte>, b: nat): Option<seq<Byte>>
    requires Readable(f) && b < NumBlocks(f)
  {
    DecodeEntry(z, f, EntryOf(f, b), FftSize(f), BlockRows(f), ColumnDelta(Flags(f)))
  }

  /** What the reader makes of the first b blocks; None once a block does not check. */
  ghost function DecodeTo(z: Zstd, f: seq<Byte>, b: nat): Option<seq<Byte>>
    requires Readable(f) && b <= NumBlocks(f)
  {
    if b == 0 then Some([])
    else match DecodeTo(z, f, b - 1)
      case None => None
      case Some(done) =>
        match DecodeBlock(z, f, b - 1)
        case None => None
        case Some(raw) => Some(done + raw)
  }

  ghost function DecompressedFile(z: Zstd, f: seq<Byte>): Option<seq<Byte>> {
    if !Readable(f) then None
    else match DecodeTo(z, f, NumBlocks(f))
      case None => None
      case Some(body) => Some(RawHeader(f[..HEADER]) + body)
  }

  // ----------------------------------------------------------- round trip

  /** The counts and offsets fit the container's 32- and 64-bit fields. */
  ghost predicate Fits(z: Zstd, bs: seq<Block>, w: nat, n: nat, blockRows: nat)
    requires AllSized(bs, w)
  {
    && blockRows < 0x1_0000_0000 && |bs| < 0x1_0000_0000 && n < 0x1_0000_0000_0000_0000
    && HEADER + |Payload(z, bs, w)| < 0x1_0000_0000_0000_0000
    && forall b :: 0 <= b < |bs| ==> |Frame(z, bs[b], w)| < 0x1_0000_0000
  }

  lemma PrefixField(g: seq<Byte>, o: nat, m: nat)
    requires |g| >= HEADER && o + m <= HEADER
    ensures Field(g, o, m) == Field(g[..HEADER], o, m)
  {
    assert g[o..o + m] == g[..HEADER][o..o + m];
  }

  /** A file reads the same header fields as its first 128 bytes do. */
  lemma HeaderFields(g: seq<Byte>)
    requires |g| >= HEADER
    ensures var c := g[..HEADER];
            && Version(g) == Version(c) && FftSize(g) == FftSize(c) && Codec(g) == Codec(c)
            && Flags(g) == Flags(c) && BlockRows(g) == BlockRows(c) && NumBlocks(g) == NumBlocks(c)
            && NumRows(g) == NumRows(c) && IndexOffset(g) == IndexOffset(c)
  {
    PrefixField(g, 4, 2);
    PrefixField(g, 6, 4);
    PrefixField(g, 100, 1);
    PrefixField(g, 101, 1);
    PrefixField(g, 102, 4);
    PrefixField(g, 106, 4);
    PrefixField(g, 110, 8);
    PrefixField(g, 118, 8);
  }

  /** The parts a container is read from. */
  datatype Parts = Parts(h: seq<Byte>, bs: seq<Block>, w: nat, n: nat, blockRows: nat)

  ghost predicate Holds(z: Zstd, p: Parts, g: seq<Byte>) {
    && |p.h| == HEADER && p.h[..4] == MAGIC && FftSize(p.h) == p.w && p.w != 0
    && p.blockRows > 0 && p.bs != []
    && (forall i :: 0 <= i < |p.bs| ==> GoodBlock(p.bs[i], p.w, p.blockRows))
    && Fits(z, p.bs, p.w, p.n, p.blockRows)
    && g == Container(z, p.h, p.bs, p.w, p.n, p.blockRows)
  }

  /** The header of a container says where everything is. */
  lemma ContainerHeader(z: Zstd, p: Parts, g: seq<Byte>)
    requires Holds(z, p, g)
    ensures |g| == HEADER + |Payload(z, p.bs, p.w)| + ENTRY * |p.bs|
    ensures ReadsAs(g[..HEADER], p.h, p.blockRows, |p.bs|, p.n, HEADER + |Payload(z, p.bs, p.w)|)
    ensures Readable(g) && NumBlocks(g) == |p.bs|
    ensures FftSize(g) == p.w && BlockRows(g) == p.blockRows && Flags(g) == FLAG_COL_DELTA
    ensures NumRows(g) == p.n && IndexOffset(g) == HEADER + |Payload(z, p.bs, p.w)|
  {
    hide CompressedHeader, Field, Payload, IndexBytes, Index;
    var c := CompressedHeader(p.h, p.blockRows, |p.bs|, p.n, HEADER + |Payload(z, p.bs, p.w)|);
    CompressedHeaderReads(p.h, p.blockRows, |p.bs|, p.n, HEADER + |Payload(z, p.bs, p.w)|);
    assert g[..HEADER] == c;
    HeaderFields(g);
    assert g[..4] == c[..4];
  }

  lemma TailSlice(p: seq<Byte>, t: seq<Byte>, o: nat, n: nat)
    requires o + n <= |t|
    ensures (p + t)[|p| + o..|p| + o + n] == t[o..o + n]
  {
  }

  lemma MiddleSlice(p: seq<Byte>, m: seq<Byte>, t: seq<Byte>, o: nat, n: nat)
    requires o + n <= |m|
    ensures (p + m + t)[|p| + o..|p| + o + n] == m[o..o + n]
  {
  }

  /** Slicing header, frames and index back out of their concatenation. */
  lemma ContainerSlices(c: seq<Byte>, payload: seq<Byte>, es: seq<Entry>, b: nat, at: nat, frame: seq<Byte>,
                        g: seq<Byte>)
    requires |c| == HEADER && b < |es| && EntryFits(es[b])
    requires at + |frame| <= |payload| && payload[at..at + |frame|] == frame
    requires g == c + payload + IndexBytes(es)
    ensures HEADER + |payload| + ENTRY * b + ENTRY <= |g| && EntryAt(g, HEADER + |payload| + ENTRY * b) == es[b]
    ensures HEADER + at + |frame| <= |g| && g[HEADER + at..HEADER + at + |frame|] == frame
  {
    hide IndexBytes, EntryAt, EntryBytes;
    IndexSlice(es, b);
    TailSlice(c + payload, IndexBytes(es), ENTRY * b, ENTRY);
    assert ENTRY * b + ENTRY <= ENTRY * |es|;
    EntryRoundTrip(g, HEADER + |payload| + ENTRY * b, es[b]);
    MiddleSlice(c, payload, IndexBytes(es), at, |frame|);
  }

  /** An index entry that leads to the frame of a block. */
  ghost predicate PointsAt(z: Zstd, g: seq<Byte>, e: Entry, blk: Block, w: nat) {
    && WellSized(blk, w)
    && e.rawRows == blk.rows
    && e.frameOffset + e.compLen <= |g|
    && g[e.frameOffset..e.frameOffset + e.compLen] == Frame(z, blk, w)
  }

  /** What a container is made of, and the entry for block b in its index. */
  lemma ContainerParts(z: Zstd, p: Parts, g: seq<Byte>, b: nat)
    returns (c: seq<Byte>, payload: seq<Byte>, es: seq<Entry>, at: nat)
    requires Holds(z, p, g) && b < |p.bs|
    ensures |c| == HEADER && |es| == |p.bs| && WellSized(p.bs[b], p.w) && payload == Payload(z, p.bs, p.w)
    ensures g == c + payload + IndexBytes(es)
    ensures EntryFits(es[b]) && es[b] == Entry(HEADER + at, |Frame(z, p.bs[b], p.w)|, p.bs[b].rows)
    ensures at + es[b].compLen <= |payload| && payload[at..at + es[b].compLen] == Frame(z, p.bs[b], p.w)
  {
    hide Payload, Index, Frame, Field, IndexBytes, CompressedHeader;
    IndexAt(z, p.bs, p.w, b);
    payload, es := Payload(z, p.bs, p.w), Index(z, p.bs, p.w);
    c := CompressedHeader(p.h, p.blockRows, |p.bs|, p.n, HEADER + |payload|);
    at := |Payload(z, p.bs[..b], p.w)|;
    assert GoodBlock(p.bs[b], p.w, p.blockRows);
  }

  /** Entry b of the index points at frame b. */
  lemma ContainerEntry(z: Zstd, p: Parts, g: seq<Byte>, b: nat)
    requires Holds(z, p, g) && b < |p.bs|
    ensures Readable(g) && NumBlocks(g) == |p.bs|
    ensures PointsAt(z, g, EntryOf(g, b), p.bs[b], p.w)
  {
    hide Payload, Frame, Field, Readable, IndexBytes, EntryAt, Holds, GoodBlock, NumBlocks, IndexOffset, EntryFits,
         ReadsAs;
    hide WellSized, FftSize, BlockRows, Flags, NumRows;
    ContainerHeader(z, p, g);
    var c, payload, es, at := ContainerParts(z, p, g, b);
    ContainerSlices(c, payload, es, b, at, Frame(z, p.bs[b], p.w), g);
  }

  lemma EntryDecodes(z: Zstd, g: seq<Byte>, e: Entry, w: nat, blockRows: nat, blk: Block)
    requires Lossless(z) && GoodBlock(blk, w, blockRows) && PointsAt(z, g, e, blk, w)
    ensures DecodeEntry(z, g, e, w, blockRows, true) == Some(blk.raw)
  {
    RowsRoundTrip(blk.raw, w, blk.rows);
    hide DeltaRows, SumRows;
    var d := DeltaRows(blk.raw, w, blk.rows);
    assert z.decompress(z.compress(d)) == Some(d);
  }

  /** The reader gets every block back. */
  lemma BlockRoundTrip(z: Zstd, p: Parts, g: seq<Byte>, b: nat)
    requires Lossless(z) && Holds(z, p, g) && b < |p.bs|
    ensures Readable(g) && NumBlocks(g) == |p.bs|
    ensures DecodeBlock(z, g, b) == Some(p.bs[b].raw)
  {
    hide EntryOf, Field, Payload, Index, Holds, Readable, Frame, DecodeEntry, Lossless, PointsAt, ReadsAs;
    hide FftSize, BlockRows, Flags, NumRows, IndexOffset, NumBlocks, WellSized;
    ContainerHeader(z, p, g);
    ContainerEntry(z, p, g, b);
    GoodBlockOf(z, p, g, b);
    EntryDecodes(z, g, EntryOf(g, b), p.w, p.blockRows, p.bs[b]);
  }

  lemma GoodBlockOf(z: Zstd, p: Parts, g: seq<Byte>, b: nat)
    requires Holds(z, p, g) && b < |p.bs|
    ensures GoodBlock(p.bs[b], p.w, p.blockRows)
  {
    hide Fits, Container, GoodBlock;
  }

  lemma {:induction false} JoinedSnoc(bs: seq<Block>, b: nat)
    requires b < |bs|
    ensures Joined(bs[..b + 1]) == Joined(bs[..b]) + bs[b].raw
    decreases b
  {
    if b > 0 {
      JoinedSnoc(bs[1..], b - 1);
      assert bs[..b + 1][1..] == bs[1..][..b] && bs[..b][1..] == bs[1..][..b - 1];
    } else {
      assert bs[..1][1..] == [];
    }
  }

  lemma {:induction false} ContainerDecodes(z: Zstd, p: Parts, g: seq<Byte>, b: nat)
    requires Lossless(z) && Holds(z, p, g) && b <= |p.bs|
    ensures Readable(g) && NumBlocks(g) == |p.bs|
    ensures DecodeTo(z, g, b) == Some(Joined(p.bs[..b]))
    decreases b
  {
    hide Readable, NumBlocks, Holds, DecodeBlock, Field, Payload, ReadsAs, Lossless;
    ContainerHeader(z, p, g);
    if b > 0 {
      ContainerDecodes(z, p, g, b - 1);
      BlockRoundTrip(z, p, g, b - 1);
      JoinedSnoc(p.bs, b - 1);
    }
  }

  function Cleared(): (s: seq<Byte>)
    ensures |s| == HEADER - RESERVED
  {
    seq(28, _ => 0)
  }

  ghost predicate FileFits(z: Zstd, f: seq<Byte>, blockRows: nat)
    requires Compressible(f) && blockRows > 0
  {
    Fits(z, FileBlocks(f, blockRows), FftSize(f), WholeRows(f), blockRows)
  }

  lemma CompressibleHasHeader(f: seq<Byte>)
    requires Compressible(f)
    ensures |f| >= HEADER && FftSize(f) != 0
  {
  }

  lemma {:induction false} CompressedHolds(z: Zstd, f: seq<Byte>, blockRows: nat) returns (p: Parts)
    requires Compressible(f) && blockRows > 0 && FileFits(z, f, blockRows)
    ensures p.h == f[..HEADER] && p.bs == FileBlocks(f, blockRows) && p.n == WholeRows(f)
    ensures p.w == FftSize(f) && p.blockRows == blockRows
    ensures CompressedFile(z, f, blockRows).Some? && Holds(z, p, CompressedFile(z, f, blockRows).value)
  {
    p := Parts(f[..HEADER], FileBlocks(f, blockRows), FftSize(f), WholeRows(f), blockRows);
    HeaderFields(f);
    hide Field, Container, Fits, WholeBody;
    assert p.h[..4] == f[..4];
    assert |p.bs| > 0;
  }

  /**
   * Decompressing a compressed recording gives back its header, reserved bytes cleared, and exactly
   * its whole rows, for every body, row width and block size.
   */
  lemma {:induction false} HistRoundTrip(z: Zstd, f: seq<Byte>, blockRows: nat)
    requires Lossless(z) && Compressible(f) && blockRows > 0 && FileFits(z, f, blockRows)
    ensures CompressedFile(z, f, blockRows).Some?
    ensures DecompressedFile(z, CompressedFile(z, f, blockRows).value)
         == Some(f[..RESERVED] + Cleared() + WholeBody(f))
  {
    hide Field, Readable, Holds, RawHeader, DecodeTo, CompressedFile, Blocks, WholeBody, Compressible, FileFits;
    hide CompressedHeader, FileBlocks, HasHeader, NumBlocks, BlockRows, Flags, NumRows, IndexOffset, FftSize,
         WholeRows, Cleared;
    CompressibleHasHeader(f);
    var p := CompressedHolds(z, f, blockRows);
    var g := CompressedFile(z, f, blockRows).value;
    ContainerHeader(z, p, g);
    ContainerDecodes(z, p, g, |p.bs|);
    assert p.bs[..|p.bs|] == p.bs;
    FileBlocksJoin(f, blockRows);
    VersionRestored(f, p.h, g);
  }

  lemma FileBlocksJoin(f: seq<Byte>, blockRows: nat)
    requires |f| >= HEADER && FftSize(f) != 0 && blockRows > 0
    ensures Joined(FileBlocks(f, blockRows)) == WholeBody(f)
  {
    hide WholeBody, FftSize, Blocks;
    BlocksJoin(WholeBody(f), FftSize(f), WholeRows(f), blockRows);
  }

  lemma VersionRestored(f: seq<Byte>, h: seq<Byte>, g: seq<Byte>)
    requires Compressible(f) && |g| >= HEADER && h == f[..HEADER]
    requires g[..HEADER][..4] == h[..4] && g[..HEADER][6..RESERVED] == h[6..RESERVED]
    ensures RawHeader(g[..HEADER]) == f[..RESERVED] + Cleared()
  {
    HeaderFields(f);
    hide RawHeader, Field;
    HeaderRoundTrip(h, g[..HEADER]);
    assert h[..RESERVED] == f[..RESERVED];
  }

  /** So a recording comes back unchanged exactly when its reserved bytes are clear and its last row is whole. */
  lemma {:induction false} HistUnchangedExactly(z: Zstd, f: seq<Byte>, blockRows: nat)
    requires Lossless(z) && Compressible(f) && blockRows > 0 && FileFits(z, f, blockRows)
    ensures CompressedFile(z, f, blockRows).Some?
    ensures DecompressedFile(z, CompressedFile(z, f, blockRows).value) == Some(f)
       <==> f[RESERVED..HEADER] == Cleared() && (|f| - HEADER) % FftSize(f) == 0
  {
    hide CompressedFile, DecompressedFile, FileFits, FftSize, Cleared, WholeRows, HasHeader, Version;
    assert |f| >= HEADER by {
      CompressibleHasHeader(f);
    }
    HistRoundTrip(z, f, blockRows);
    Unchanged(f);
  }

  lemma Unchanged(f: seq<Byte>)
    requires |f| >= HEADER && FftSize(f) != 0
    ensures f[..RESERVED] + Cleared() + WholeBody(f) == f
       <==> f[RESERVED..HEADER] == Cleared() && (|f| - HEADER) % FftSize(f) == 0
  {
    hide FftSize, Cleared;
    var n, w := WholeRows(f), FftSize(f);
    WholeFits(|f| - HEADER, w);
    var back := f[..RESERVED] + Cleared() + WholeBody(f);
    assert back[RESERVED..HEADER] == Cleared();
    if f[RESERVED..HEADER] == Cleared() && n * w == |f| - HEADER {
      assert f == f[..RESERVED] + f[RESERVED..HEADER] + f[HEADER..HEADER + n * w];
    }
  }

  // ------------------------------------------------------- small enough

  /** The compressor's documented worst case is well under twice its input and 64 KB. */
  ghost predicate ExpandsLittle(z: Zstd) {
    forall x :: |z.compress(x)| <= 2 * |x| + 0x1_0000
  }

  lemma {:induction false} PayloadBound(z: Zstd, bs: seq<Block>, w: nat, bound: nat)
    requires AllSized(bs, w)
    requires forall i :: 0 <= i < |bs| ==> |Frame(z, bs[i], w)| <= bound
    ensures |Payload(z, bs, w)| <= |bs| * bound
    decreases |bs|
  {
    hide Frame;
    if bs != [] {
      var k := |bs| - 1;
      PayloadBound(z, bs[..k], w, bound);
      assert |bs| * bound == k * bound + bound;
    }
  }

  lemma {:induction false} BlocksSmall(body: seq<Byte>, w: nat, n: nat, blockRows: nat)
    requires |body| == n * w && blockRows > 0
    ensures |Blocks(body, w, n, blockRows)| <= n
    ensures forall i :: 0 <= i < |Blocks(body, w, n, blockRows)| ==> |Blocks(body, w, n, blockRows)[i].raw| <= |body|
    decreases n
  {
    if n > 0 {
      var k := MinNat(blockRows, n);
      TakeRows(n, k, w);
      BlocksSmall(body[k * w..], w, n - k, blockRows);
    }
  }

  lemma RowsAtMostBytes(n: nat, w: nat)
    requires w > 0
    ensures n <= n * w
  {
  }

  /** Every recording below one gigabyte fits, whatever the compressor does within its bound. */
  lemma FitsWhenSmall(z: Zstd, f: seq<Byte>, blockRows: nat)
    requires ExpandsLittle(z) && Compressible(f) && 0 < blockRows < 0x1_0000_0000 && |f| <= 0x4000_0000
    ensures FileFits(z, f, blockRows)
  {
    var n, w, body, bs := WholeRows(f), FftSize(f), WholeBody(f), FileBlocks(f, blockRows);
    WholeFits(|f| - HEADER, w);
    RowsAtMostBytes(n, w);
    BlocksSmall(body, w, n, blockRows);
    assert forall i :: 0 <= i < |bs| ==> GoodBlock(bs[i], w, blockRows);
    hide Field, Blocks, WholeBody, Compressible, Payload;
    assert forall i :: 0 <= i < |bs| ==> |Frame(z, bs[i], w)| <= 0x8001_0000;
    PayloadBound(z, bs, w, 0x8001_0000);
    assert |bs| * 0x8001_0000 <= 0x4000_0000 * 0x8001_0000;
  }
}
