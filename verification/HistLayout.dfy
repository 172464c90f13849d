/** The recording files byte by byte: what any other reader of the format finds in them. */
module HistLayout {
  import opened Prelude
  import opened LittleEndian
  import opened HistFormat
  import opened HistCodec

  // -------------------------------------------------------------- header

  lemma Slices(f: seq<Byte>, off: nat, n: nat)
    requires off + n <= |f|
    ensures Field(f, off, n) == Le(f[off..off + n])
    ensures n == 1 ==> Field(f, off, n) == f[off]
    ensures n == 2 ==> Field(f, off, n) == Word(f[off], f[off + 1], 0, 0)
    ensures n == 4 ==> Field(f, off, n) == Word(f[off], f[off + 1], f[off + 2], f[off + 3])
    ensures n == 8 ==> Field(f, off, n) == Word(f[off], f[off + 1], f[off + 2], f[off + 3])
                         + 0x1_0000_0000 * Word(f[off + 4], f[off + 5], f[off + 6], f[off + 7])
  {
    hide Le, Word;
    BytesOf(f[off..off + n]);
  }

  /** Where the fields of the header stand. */
  lemma {:induction false} HeaderLayout(f: seq<Byte>)
    requires |f| >= 128
    ensures HasHeader(f) <==> f[..4] == [66, 87, 87, 70]
    ensures Version(f) == Word(f[4], f[5], 0, 0)
    ensures FftSize(f) == Word(f[6], f[7], f[8], f[9])
    ensures Codec(f) == f[100] && Flags(f) == f[101]
    ensures BlockRows(f) == Word(f[102], f[103], f[104], f[105])
    ensures NumBlocks(f) == Word(f[106], f[107], f[108], f[109])
    ensures NumRows(f) == Word(f[110], f[111], f[112], f[113])
                          + 0x1_0000_0000 * Word(f[114], f[115], f[116], f[117])
    ensures IndexOffset(f) == Word(f[118], f[119], f[120], f[121])
                              + 0x1_0000_0000 * Word(f[122], f[123], f[124], f[125])
  {
    hide Word, Field;
    Slices(f, 4, 2);
    Slices(f, 6, 4);
    Slices(f, 100, 1);
    Slices(f, 101, 1);
    Slices(f, 102, 4);
    Slices(f, 106, 4);
    Slices(f, 110, 8);
    Slices(f, 118, 8);
  }

  /** An index entry: eight bytes of offset, four of length, four of row count. */
  lemma {:induction false} EntryLayout(f: seq<Byte>, o: nat)
    requires o + 16 <= |f|
    ensures EntryAt(f, o).frameOffset == Word(f[o], f[o + 1], f[o + 2], f[o + 3])
                                         + 0x1_0000_0000 * Word(f[o + 4], f[o + 5], f[o + 6], f[o + 7])
    ensures EntryAt(f, o).compLen == Word(f[o + 8], f[o + 9], f[o + 10], f[o + 11])
    ensures EntryAt(f, o).rawRows == Word(f[o + 12], f[o + 13], f[o + 14], f[o + 15])
  {
    hide Word, Field;
    Slices(f, o, 8);
    Slices(f, o + 8, 4);
    Slices(f, o + 12, 4);
  }

  lemma SetKeeps(f: seq<Byte>, off: nat, n: nat, v: nat, i: nat)
    requires off + n <= |f| && i < |f| && !(off <= i < off + n)
    ensures SetField(f, off, n, v)[i] == f[i]
  {
    hide ToLe;
  }

  /** The compressed header keeps everything but the version and 26 of the reserved bytes. */
  lemma {:induction false} CompressedHeaderKeeps(h: seq<Byte>, blockRows: nat, numBlocks: nat, numRows: nat,
                                                 indexOffset: nat, i: nat)
    requires |h| == 128 && i < 128 && !(4 <= i < 6) && !(100 <= i < 126)
    ensures CompressedHeader(h, blockRows, numBlocks, numRows, indexOffset)[i] == h[i]
  {
    hide SetField;
    var h1 := SetField(h, 4, 2, 4);
    var h2 := SetField(h1, 100, 1, 1);
    var h3 := SetField(h2, 101, 1, 2);
    var h4 := SetField(h3, 102, 4, blockRows);
    var h5 := SetField(h4, 106, 4, numBlocks);
    var h6 := SetField(h5, 110, 8, numRows);
    SetKeeps(h, 4, 2, 4, i);
    SetKeeps(h1, 100, 1, 1, i);
    SetKeeps(h2, 101, 1, 2, i);
    SetKeeps(h3, 102, 4, blockRows, i);
    SetKeeps(h4, 106, 4, numBlocks, i);
    SetKeeps(h5, 110, 8, numRows, i);
    SetKeeps(h6, 118, 8, indexOffset, i);
  }

  /** The raw header made of a compressed one: version 3, the last 28 bytes zero, everything else kept. */
  lemma {:induction false} RawHeaderBytes(h: seq<Byte>, i: nat)
    requires |h| == 128 && i < 128
    ensures RawHeader(h)[i] == if i == 4 then 3 else if i == 5 || i >= 100 then 0 else h[i]
  {
    assert ToLe(3, 2) == [3] + ToLe(0, 1);
  }

  // ---------------------------------------------------------------- rows

  /** Row r of a body of rows of w bytes. */
  function Row(s: seq<Byte>, w: nat, r: nat): seq<Byte> {
    if r * w + w <= |s| then s[r * w..r * w + w] else []
  }

  /** A byte is stored as its difference from the one before it, modulo 256. */
  lemma {:induction false} DeltaBytes(prev: Byte, row: seq<Byte>, i: nat)
    requires i < |row|
    ensures DeltaFrom(prev, row)[i] == (row[i] - if i == 0 then prev else row[i - 1]) % 256
    decreases i
  {
    if i > 0 {
      DeltaBytes(row[0], row[1..], i - 1);
    }
  }

  lemma RowFits(r: nat, rows: nat, w: nat)
    requires r < rows
    ensures 0 <= r * w && r * w + w <= rows * w
  {
    TakeRows(rows, r + 1, w);
    RowSplit(r + 1, w);
  }

  /** Every row is differenced by itself. */
  lemma {:induction false} DeltaRow(raw: seq<Byte>, w: nat, rows: nat, r: nat)
    requires |raw| == rows * w && r < rows
    ensures Row(DeltaRows(raw, w, rows), w, r) == DeltaFrom(0, Row(raw, w, r))
    decreases rows
  {
    hide DeltaRows, DeltaFrom;
    RowSplit(rows, w);
    LastRow(raw, w, rows);
    RowFits(r, rows, w);
    var k := (rows - 1) * w;
    var d := DeltaRows(raw[..k], w, rows - 1);
    if r < rows - 1 {
      RowFits(r, rows - 1, w);
      DeltaRow(raw[..k], w, rows - 1, r);
      FrontRow(raw, k, r * w, w);
      FrontSlice(d, DeltaFrom(0, raw[k..]), r * w, w);
    } else {
      BackRow(raw, k, w);
      BackSlice(d, DeltaFrom(0, raw[k..]));
    }
  }

  lemma FrontRow(s: seq<Byte>, k: nat, o: nat, w: nat)
    requires o + w <= k <= |s|
    ensures s[..k][o..o + w] == s[o..o + w]
  {
  }

  lemma FrontSlice(a: seq<Byte>, b: seq<Byte>, o: nat, w: nat)
    requires o + w <= |a|
    ensures (a + b)[o..o + w] == a[o..o + w]
  {
  }

  lemma BackRow(s: seq<Byte>, k: nat, w: nat)
    requires k + w == |s|
    ensures s[k..] == s[k..k + w]
  {
  }

  lemma BackSlice(a: seq<Byte>, b: seq<Byte>)
    ensures (a + b)[|a|..|a| + |b|] == b
  {
  }

  lemma RowShift(s: seq<Byte>, w: nat, k: nat, r: nat)
    requires k * w <= |s|
    ensures Row(s[k * w..], w, r) == Row(s, w, k + r)
  {
    assert (k + r) * w == k * w + r * w;
    var a, b := s[k * w..], s;
    if r * w + w <= |a| {
      assert a[r * w..r * w + w] == b[(k + r) * w..(k + r) * w + w];
    }
  }

  lemma RowOfFront(s: seq<Byte>, w: nat, n: nat, r: nat)
    requires n * w <= |s| && r < n
    ensures Row(s[..n * w], w, r) == Row(s, w, r)
  {
    RowFits(r, n, w);
  }

  /** Block b holds rows b * blockRows and on, blockRows of them unless the recording ends before. */
  lemma {:induction false} BlockAt(body: seq<Byte>, w: nat, n: nat, blockRows: nat, b: nat, r: nat)
    requires |body| == n * w && blockRows > 0
    requires b < |Blocks(body, w, n, blockRows)|
    ensures b * blockRows < n
    ensures Blocks(body, w, n, blockRows)[b].rows == MinNat(blockRows, n - b * blockRows)
    ensures r < MinNat(blockRows, n - b * blockRows) ==>
              Row(Blocks(body, w, n, blockRows)[b].raw, w, r) == Row(body, w, b * blockRows + r)
    decreases b
  {
    hide Row;
    var k := MinNat(blockRows, n);
    TakeRows(n, k, w);
    if b == 0 {
      if r < k {
        RowOfFront(body, w, k, r);
      }
    } else {
      assert b * blockRows == (b - 1) * blockRows + blockRows;
      BlockAt(body[k * w..], w, n - k, blockRows, b - 1, r);
      RowShift(body, w, k, (b - 1) * blockRows + r);
    }
  }

  // ----------------------------------------------------------- container

  /** The block size: two megabytes of rows, but from 64 to 1024 of them. */
  lemma {:induction false} DefaultRows(fftSize: nat)
    ensures var r := DefaultBlockRows(fftSize);
            && (fftSize == 0 ==> r == 256) && 64 <= r <= 1024
            && (fftSize > 0 && r > 64 ==> r * fftSize <= 0x20_0000)
            && (fftSize > 0 && r < 1024 ==> (r + 1) * fftSize > 0x20_0000)
  {
    if fftSize > 0 {
      var q := 0x20_0000 / fftSize;
      assert q * fftSize <= 0x20_0000 < (q + 1) * fftSize;
      if q < 64 {
        RowFits(q, 64, fftSize);
      } else if q > 1024 {
        RowFits(1024, q, fftSize);
      }
    }
  }

  /** Which files are compressed: raw ones with at least one whole row. */
  lemma {:induction false} CompressibleExactly(f: seq<Byte>)
    ensures Compressible(f) <==>
      && |f| >= 128 && f[..4] == [66, 87, 87, 70] && f[4] == 3 && f[5] == 0
      && Word(f[6], f[7], f[8], f[9]) != 0 && |f| - 128 >= Word(f[6], f[7], f[8], f[9])
  {
    if |f| >= 128 {
      HeaderLayout(f);
      hide Field, Version, FftSize, Codec, Flags, BlockRows, NumBlocks, NumRows, IndexOffset, HasHeader;
      VersionThree(f[4], f[5]);
      if FftSize(f) != 0 {
        AtLeastOne(|f| - 128, FftSize(f));
      }
    }
  }

  lemma VersionThree(a: Byte, b: Byte)
    ensures Word(a, b, 0, 0) == 3 <==> a == 3 && b == 0
  {
  }

  lemma AtLeastOne(a: nat, w: nat)
    requires w > 0
    ensures a / w > 0 <==> a >= w
  {
    var q := a / w;
    assert q * w <= a < q * w + w;
    if q > 0 {
      assert q * w == (q - 1) * w + w;
      assert (q - 1) * w >= 0;
    }
  }

  /** The rows taken are the whole ones. */
  lemma WholeRowsAre(f: seq<Byte>)
    requires |f| >= 128 && FftSize(f) != 0
    ensures var w, n := FftSize(f), WholeRows(f);
            128 + n * w <= |f| < 128 + n * w + w && WholeBody(f) == f[128..128 + n * w]
  {
    hide FftSize;
    WholeFits(|f| - HEADER, FftSize(f));
  }

  /** The header of a compressed recording counts its rows and blocks. */
  lemma {:induction false} ContainerShape(z: Zstd, f: seq<Byte>, blockRows: nat, b: nat)
    requires Compressible(f) && blockRows > 0 && FileFits(z, f, blockRows)
    ensures CompressedFile(z, f, blockRows).Some?
    ensures var g := CompressedFile(z, f, blockRows).value;
            && Readable(g) && FftSize(g) == FftSize(f) && NumRows(g) == WholeRows(f)
            && BlockRows(g) == blockRows && Flags(g) == 2 && (b < NumBlocks(g) <==> b * blockRows < WholeRows(f))
  {
    hide Field, Readable, Holds, CompressedFile, Blocks, WholeBody, Compressible, FileFits, FileBlocks, HasHeader,
         NumBlocks, BlockRows, Flags, NumRows, IndexOffset, FftSize, WholeRows, ReadsAs, Payload;
    CompressibleHasHeader(f);
    var p := CompressedHolds(z, f, blockRows);
    var g := CompressedFile(z, f, blockRows).value;
    ContainerHeader(z, p, g);
    BlocksOf(f, blockRows, b);
  }

  /** An entry for so many rows, whose frame unpacks to d. */
  ghost predicate LeadsTo(z: Zstd, g: seq<Byte>, e: Entry, w: nat, rows: nat, d: seq<Byte>) {
    && e.rawRows == rows && e.frameOffset + e.compLen <= |g|
    && z.decompress(g[e.frameOffset..e.frameOffset + e.compLen]) == Some(d) && |d| == rows * w
  }

  /** d is the rows of the body from one on, each differenced by itself. */
  ghost predicate Differenced(d: seq<Byte>, body: seq<Byte>, w: nat, first: nat, rows: nat) {
    forall r :: 0 <= r < rows ==> Row(d, w, r) == DeltaFrom(0, Row(body, w, first + r))
  }

  ghost predicate EntryHolds(z: Zstd, g: seq<Byte>, b: nat, body: seq<Byte>, w: nat, first: nat, rows: nat) {
    && Readable(g) && b < NumBlocks(g)
    && exists d :: LeadsTo(z, g, EntryOf(g, b), w, rows, d) && Differenced(d, body, w, first, rows)
  }

  /**
   * Entry b of the index leads to a frame that unpacks to the rows from b * blockRows on, blockRows of
   * them or as many as there are, each differenced by itself.
   */
  lemma {:induction false} ContainerRows(z: Zstd, f: seq<Byte>, blockRows: nat, b: nat)
    requires Lossless(z) && Compressible(f) && blockRows > 0 && FileFits(z, f, blockRows)
    requires b * blockRows < WholeRows(f)
    ensures CompressedFile(z, f, blockRows).Some?
    ensures EntryHolds(z, CompressedFile(z, f, blockRows).value, b, WholeBody(f), FftSize(f), b * blockRows,
                       MinNat(blockRows, WholeRows(f) - b * blockRows))
  {
    hide Field, Readable, Holds, CompressedFile, Blocks, WholeBody, Compressible, FileFits, FileBlocks, HasHeader,
         NumBlocks, BlockRows, Flags, NumRows, IndexOffset, FftSize, WholeRows, EntryOf, PointsAt, ReadsAs, Payload,
         LeadsTo, Differenced, MinNat, Lossless;
    CompressibleHasHeader(f);
    ContainerShape(z, f, blockRows, b);
    var p := CompressedHolds(z, f, blockRows);
    var g := CompressedFile(z, f, blockRows).value;
    BlocksOf(f, blockRows, b);
    ContainerEntry(z, p, g, b);
    BlockOf(f, blockRows, b);
    var d := FrameUnpacks(z, g, EntryOf(g, b), p.bs[b], FftSize(f));
    DifferencedOf(d, p.bs[b], WholeBody(f), FftSize(f), b * blockRows);
  }

  lemma DifferencedOf(d: seq<Byte>, blk: Block, body: seq<Byte>, w: nat, first: nat)
    requires Differenced(d, blk.raw, w, 0, blk.rows)
    requires forall r :: 0 <= r < blk.rows ==> Row(blk.raw, w, r) == Row(body, w, first + r)
    ensures Differenced(d, body, w, first, blk.rows)
  {
    hide Row, DeltaFrom;
  }

  lemma BlocksOf(f: seq<Byte>, blockRows: nat, b: nat)
    requires |f| >= 128 && FftSize(f) != 0 && blockRows > 0
    ensures b < |FileBlocks(f, blockRows)| <==> b * blockRows < WholeRows(f)
  {
    hide FftSize, WholeRows, WholeBody, Blocks, CountBlocks;
    BlocksCount(WholeBody(f), FftSize(f), WholeRows(f), blockRows);
    CountIs(WholeRows(f), blockRows, b);
  }

  lemma CountIs(n: nat, d: nat, b: nat)
    requires d > 0
    ensures b < CountBlocks(n, d) <==> b * d < n
  {
    var q := CountBlocks(n, d);
    assert q * d <= n + d - 1 < q * d + d;
    if b < q {
      RowFits(b, q, d);
    } else {
      assert b * d == q * d + (b - q) * d;
      assert (b - q) * d >= 0;
    }
  }

  lemma BlockOf(f: seq<Byte>, blockRows: nat, b: nat)
    requires |f| >= 128 && FftSize(f) != 0 && blockRows > 0 && b < |FileBlocks(f, blockRows)|
    ensures var n, blk := WholeRows(f), FileBlocks(f, blockRows)[b];
            && b * blockRows < n && blk.rows == MinNat(blockRows, n - b * blockRows)
            && forall r :: 0 <= r < blk.rows ==>
                 Row(blk.raw, FftSize(f), r) == Row(WholeBody(f), FftSize(f), b * blockRows + r)
  {
    hide FftSize, WholeRows, WholeBody, Blocks, Row, MinNat;
    BlockAt(WholeBody(f), FftSize(f), WholeRows(f), blockRows, b, 0);
    forall r: nat | r < FileBlocks(f, blockRows)[b].rows
      ensures Row(FileBlocks(f, blockRows)[b].raw, FftSize(f), r) == Row(WholeBody(f), FftSize(f), b * blockRows + r)
    {
      BlockAt(WholeBody(f), FftSize(f), WholeRows(f), blockRows, b, r);
    }
  }

  lemma FrameUnpacks(z: Zstd, g: seq<Byte>, e: Entry, blk: Block, w: nat) returns (d: seq<Byte>)
    requires Lossless(z) && PointsAt(z, g, e, blk, w)
    ensures LeadsTo(z, g, e, w, blk.rows, d) && Differenced(d, blk.raw, w, 0, blk.rows)
  {
    hide DeltaRows, DeltaFrom, Row;
    d := DeltaRows(blk.raw, w, blk.rows);
    assert z.decompress(z.compress(d)) == Some(d);
    forall r | 0 <= r < blk.rows
      ensures Row(d, w, r) == DeltaFrom(0, Row(blk.raw, w, r))
    {
      DeltaRow(blk.raw, w, blk.rows, r);
    }
  }

  // ------------------------------------------------------------- reading

  /** Which files are read at all. */
  lemma {:induction false} ReadableExactly(f: seq<Byte>)
    ensures Readable(f) <==>
      && |f| >= 128 && f[..4] == [66, 87, 87, 70] && f[4] == 4 && f[5] == 0
      && (f[6] != 0 || f[7] != 0 || f[8] != 0 || f[9] != 0) && f[100] == 1
      && (f[102] != 0 || f[103] != 0 || f[104] != 0 || f[105] != 0)
      && var blocks := Word(f[106], f[107], f[108], f[109]);
         var at := Word(f[118], f[119], f[120], f[121]) + 0x1_0000_0000 * Word(f[122], f[123], f[124], f[125]);
         blocks != 0 && at != 0 && at + 16 * blocks <= |f|
  {
    if |f| >= 128 {
      HeaderLayout(f);
      hide Field, Version, FftSize, Codec, Flags, BlockRows, NumBlocks, NumRows, IndexOffset, HasHeader;
      VersionFour(f[4], f[5]);
      SomeByte(f[6], f[7], f[8], f[9]);
      SomeByte(f[102], f[103], f[104], f[105]);
      hide Word;
    }
  }

  lemma VersionFour(a: Byte, b: Byte)
    ensures Word(a, b, 0, 0) == 4 <==> a == 4 && b == 0
  {
  }

  lemma SomeByte(a: Byte, b: Byte, c: Byte, d: Byte)
    ensures Word(a, b, c, d) != 0 <==> a != 0 || b != 0 || c != 0 || d != 0
  {
  }

  /** What an index entry leads to: a frame in the file that unpacks to the number of rows it says. */
  ghost predicate Unpacks(z: Zstd, f: seq<Byte>, e: Entry, w: nat, blockRows: nat, d: seq<Byte>) {
    && 0 < e.rawRows <= blockRows && e.frameOffset + e.compLen <= |f|
    && z.decompress(f[e.frameOffset..e.frameOffset + e.compLen]) == Some(d) && |d| == e.rawRows * w
  }

  /**
   * A block is read exactly when its entry leads to such a frame; with the delta bit, the second lowest
   * of the flags, every row is what differences to the unpacked row, and without it the unpacked row itself.
   */
  lemma {:induction false} BlockExactly(z: Zstd, f: seq<Byte>, b: nat, raw: seq<Byte>)
    requires Readable(f) && b < NumBlocks(f)
    ensures DecodeBlock(z, f, b) == Some(raw) <==>
            exists d :: Unpacks(z, f, EntryOf(f, b), FftSize(f), BlockRows(f), d) && |d| == |raw|
              && if (Flags(f) / 2) % 2 == 1
                 then forall r :: 0 <= r < EntryOf(f, b).rawRows ==>
                        DeltaFrom(0, Row(raw, FftSize(f), r)) == Row(d, FftSize(f), r)
                 else d == raw
  {
    hide Readable, EntryOf, FftSize, BlockRows, Flags, SumRows, DeltaFrom, Row;
    assert |f| >= 128 by {
      ReadableExactly(f);
    }
    var e, w := EntryOf(f, b), FftSize(f);
    forall d | Unpacks(z, f, e, w, BlockRows(f), d) && |d| == |raw|
      ensures SumRows(d, w, e.rawRows) == raw <==>
              forall r :: 0 <= r < e.rawRows ==> DeltaFrom(0, Row(raw, w, r)) == Row(d, w, r)
    {
      SummedExactly(d, raw, w, e.rawRows);
    }
  }

  lemma {:induction false} SummedExactly(d: seq<Byte>, raw: seq<Byte>, w: nat, rows: nat)
    requires |d| == |raw| == rows * w
    ensures SumRows(d, w, rows) == raw <==>
            forall r :: 0 <= r < rows ==> DeltaFrom(0, Row(raw, w, r)) == Row(d, w, r)
  {
    hide SumRows, DeltaRows, DeltaFrom, Row;
    RowsRoundTrip(raw, w, rows);
    DeltaUndoes(d, w, rows);
    var x := DeltaRows(raw, w, rows);
    forall r | 0 <= r < rows
      ensures Row(x, w, r) == DeltaFrom(0, Row(raw, w, r))
    {
      DeltaRow(raw, w, rows, r);
    }
    SameRows(x, d, w, rows);
  }

  lemma {:induction false} DeltaOfSum(acc: Byte, d: seq<Byte>)
    ensures DeltaFrom(acc, SumFrom(acc, d)) == d
    decreases |d|
  {
    if d != [] {
      var x: Byte := (acc + d[0]) % 256;
      DeltaOfSum(x, d[1..]);
      assert (x - acc) % 256 == d[0];
      assert SumFrom(acc, d)[1..] == SumFrom(x, d[1..]);
    }
  }

  lemma {:induction false} DeltaUndoes(d: seq<Byte>, w: nat, rows: nat)
    requires |d| == rows * w
    ensures DeltaRows(SumRows(d, w, rows), w, rows) == d
    decreases rows
  {
    hide DeltaRows, SumRows, DeltaFrom, SumFrom;
    if rows > 0 {
      RowSplit(rows, w);
      var k := (rows - 1) * w;
      var a, e := SumRows(d[..k], w, rows - 1), SumFrom(0, d[k..]);
      LastRow(d, w, rows);
      LastRow(a + e, w, rows);
      assert (a + e)[..k] == a && (a + e)[k..] == e;
      DeltaUndoes(d[..k], w, rows - 1);
      DeltaOfSum(0, d[k..]);
    } else {
      NoRows(d, w);
      assert d == [];
      NothingDifferenced(d, w);
    }
  }

  lemma NothingDifferenced(s: seq<Byte>, w: nat)
    requires s == []
    ensures |s| == 0 * w && DeltaRows(s, w, 0) == s && SumRows(s, w, 0) == s
  {
  }

  lemma {:induction false} SameRows(a: seq<Byte>, b: seq<Byte>, w: nat, rows: nat)
    requires |a| == |b| == rows * w
    ensures a == b <==> forall r :: 0 <= r < rows ==> Row(a, w, r) == Row(b, w, r)
    decreases rows
  {
    if rows > 0 {
      RowSplit(rows, w);
      var k := (rows - 1) * w;
      SameRows(a[..k], b[..k], w, rows - 1);
      forall r | 0 <= r < rows - 1
        ensures Row(a[..k], w, r) == Row(a, w, r) && Row(b[..k], w, r) == Row(b, w, r)
      {
        RowOfFront(a, w, rows - 1, r);
        RowOfFront(b, w, rows - 1, r);
      }
      assert Row(a, w, rows - 1) == a[k..] && Row(b, w, rows - 1) == b[k..];
      assert a == a[..k] + a[k..] && b == b[..k] + b[k..];
    }
  }

  /** Blocks are read in order, one behind the other, and all or nothing. */
  lemma {:induction false} DecodedExactly(z: Zstd, f: seq<Byte>, b: nat)
    requires Readable(f) && b <= NumBlocks(f)
    ensures DecodeTo(z, f, b).Some? <==> forall i :: 0 <= i < b ==> DecodeBlock(z, f, i).Some?
    ensures DecodeTo(z, f, b).Some? && b > 0 ==>
              DecodeTo(z, f, b) == Some(DecodeTo(z, f, b - 1).value + DecodeBlock(z, f, b - 1).value)
    decreases b
  {
    hide Readable, DecodeBlock, NumBlocks;
    if b > 0 {
      DecodedExactly(z, f, b - 1);
    }
  }

  lemma DecompressedExactly(z: Zstd, f: seq<Byte>, raw: seq<Byte>)
    ensures DecompressedFile(z, f) == Some(raw) <==>
      Readable(f) && DecodeTo(z, f, NumBlocks(f)).Some? && |raw| >= 128
      && raw[128..] == DecodeTo(z, f, NumBlocks(f)).value
      && forall i :: 0 <= i < 128 ==> raw[i] == if i == 4 then 3 else if i == 5 || i >= 100 then 0 else f[i]
  {
    hide Readable, DecodeTo, NumBlocks, RawHeader;
    if Readable(f) {
      ReadableExactly(f);
    }
    if Readable(f) && DecodeTo(z, f, NumBlocks(f)).Some? {
      var h := RawHeader(f[..128]);
      forall i | 0 <= i < 128
        ensures h[i] == if i == 4 then 3 else if i == 5 || i >= 100 then 0 else f[i]
      {
        RawHeaderBytes(f[..128], i);
      }
      SplitAt(raw, h, DecodeTo(z, f, NumBlocks(f)).value);
    }
  }

  lemma SplitAt(raw: seq<Byte>, h: seq<Byte>, body: seq<Byte>)
    ensures raw == h + body <==>
            |raw| >= |h| && raw[|h|..] == body && forall i :: 0 <= i < |h| ==> raw[i] == h[i]
  {
    if |raw| >= |h| && raw[|h|..] == body && forall i :: 0 <= i < |h| ==> raw[i] == h[i] {
      assert raw[..|h|] == h;
      assert raw == raw[..|h|] + raw[|h|..];
    }
  }
}
