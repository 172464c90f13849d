/**
 * The bytes of a HIST recording: the 128-byte header with its v4 extension, little-endian fields,
 * the column delta of a row, and the compressed container as a function of the raw file.
 */
module HistFormat {
  import opened Prelude
  import opened LittleEndian

  /** The compressor, seen from outside. */
  datatype Zstd = Zstd(compress: seq<Byte> -> seq<Byte>, decompress: seq<Byte> -> Option<seq<Byte>>)

  ghost predicate Lossless(z: Zstd) {
    forall x :: z.decompress(z.compress(x)) == Some(x)
  }

  // -------------------------------------------------------------- header

  const HEADER: nat := 128
  const RESERVED: nat := 100
  const ENTRY: nat := 16
  const FILE_VERSION := 3
  const FILE_VERSION_ZSTD := 4
  const CODEC_ZSTD := 1
  const FLAG_COL_DELTA := 2
  const MAGIC: seq<Byte> := [66, 87, 87, 70]

  predicate HasHeader(f: seq<Byte>) {
    |f| >= HEADER && f[..4] == MAGIC
  }

  function Version(f: seq<Byte>): nat requires |f| >= HEADER { Field(f, 4, 2) }
  function FftSize(f: seq<Byte>): nat requires |f| >= HEADER { Field(f, 6, 4) }
  function Codec(f: seq<Byte>): nat requires |f| >= HEADER { Field(f, 100, 1) }
  function Flags(f: seq<Byte>): nat requires |f| >= HEADER { Field(f, 101, 1) }
  function BlockRows(f: seq<Byte>): nat requires |f| >= HEADER { Field(f, 102, 4) }
  function NumBlocks(f: seq<Byte>): nat requires |f| >= HEADER { Field(f, 106, 4) }
  function NumRows(f: seq<Byte>): nat requires |f| >= HEADER { Field(f, 110, 8) }
  function IndexOffset(f: seq<Byte>): nat requires |f| >= HEADER { Field(f, 118, 8) }

  /** The v4 header: version and extension overlaid on the raw one, two reserved bytes left as they were. */
  function CompressedHeader(h: seq<Byte>, blockRows: nat, numBlocks: nat, numRows: nat,
                            indexOffset: nat): (g: seq<Byte>)
    requires |h| == HEADER
    ensures |g| == HEADER
  {
    SetField(SetField(SetField(SetField(SetField(SetField(SetField(h, 4, 2, FILE_VERSION_ZSTD),
      100, 1, CODEC_ZSTD), 101, 1, FLAG_COL_DELTA), 102, 4, blockRows),
      106, 4, numBlocks), 110, 8, numRows), 118, 8, indexOffset)
  }

  /** The raw header again: version restored and the reserved bytes cleared. */
  function RawHeader(h: seq<Byte>): (g: seq<Byte>)
    requires |h| == HEADER
    ensures |g| == HEADER
  {
    SetField(h, 4, 2, FILE_VERSION)[..RESERVED] + seq(28, _ => 0)
  }

  /** A header whose fields are the given ones; everything before the reserved bytes but the version is kept. */
  ghost predicate ReadsAs(g: seq<Byte>, h: seq<Byte>, blockRows: nat, numBlocks: nat, numRows: nat, indexOffset: nat)
    requires |g| == |h| == HEADER
  {
    && Version(g) == FILE_VERSION_ZSTD && FftSize(g) == FftSize(h) && g[..4] == h[..4]
    && Codec(g) == CODEC_ZSTD && Flags(g) == FLAG_COL_DELTA && BlockRows(g) == blockRows
    && NumBlocks(g) == numBlocks && NumRows(g) == numRows && IndexOffset(g) == indexOffset
    && g[6..RESERVED] == h[6..RESERVED]
  }

  lemma CompressedHeaderReads(h: seq<Byte>, blockRows: nat, numBlocks: nat, numRows: nat, indexOffset: nat)
    requires |h| == HEADER
    requires blockRows < 0x1_0000_0000 && numBlocks < 0x1_0000_0000
    requires numRows < 0x1_0000_0000_0000_0000 && indexOffset < 0x1_0000_0000_0000_0000
    ensures ReadsAs(CompressedHeader(h, blockRows, numBlocks, numRows, indexOffset),
                    h, blockRows, numBlocks, numRows, indexOffset)
  {
    hide Le, ToLe, SetField, Field;
    Powers();
    var h1 := SetField(h, 4, 2, FILE_VERSION_ZSTD);
    var h2 := SetField(h1, 100, 1, CODEC_ZSTD);
    var h3 := SetField(h2, 101, 1, FLAG_COL_DELTA);
    var h4 := SetField(h3, 102, 4, blockRows);
    var h5 := SetField(h4, 106, 4, numBlocks);
    var h6 := SetField(h5, 110, 8, numRows);
    var h7 := SetField(h6, 118, 8, indexOffset);
    SetFieldHere(h, 4, 2, FILE_VERSION_ZSTD);
    SetFieldHere(h1, 100, 1, CODEC_ZSTD);
    SetFieldHere(h2, 101, 1, FLAG_COL_DELTA);
    SetFieldHere(h3, 102, 4, blockRows);
    SetFieldHere(h4, 106, 4, numBlocks);
    SetFieldHere(h5, 110, 8, numRows);
    SetFieldHere(h6, 118, 8, indexOffset);
    FieldKept(h1, h2, 100, 1, CODEC_ZSTD);
    FieldKept(h2, h3, 101, 1, FLAG_COL_DELTA);
    FieldKept(h3, h4, 102, 4, blockRows);
    FieldKept(h4, h5, 106, 4, numBlocks);
    FieldKept(h5, h6, 110, 8, numRows);
    FieldKept(h6, h7, 118, 8, indexOffset);
    VersionOnly(h);
  }

  /** Setting an extension field keeps everything before it. */
  lemma FieldKept(f: seq<Byte>, g: seq<Byte>, off: nat, n: nat, v: nat)
    requires |f| == HEADER && RESERVED <= off && off + n <= HEADER && g == SetField(f, off, n, v)
    ensures g[..4] == f[..4] && g[6..RESERVED] == f[6..RESERVED] && Field(g, 6, 4) == Field(f, 6, 4)
    ensures forall o, m {:trigger Field(g, o, m)} :: 0 <= o && 0 <= m && o + m <= off ==>
              Field(g, o, m) == Field(f, o, m)
  {
    forall o: nat, m: nat | o + m <= off
      ensures Field(g, o, m) == Field(f, o, m)
    {
      SetFieldElsewhere(f, off, n, v, o, m);
    }
    SetFieldElsewhere(f, off, n, v, 0, 4);
    SetFieldElsewhere(f, off, n, v, 6, RESERVED - 6);
  }

  lemma VersionOnly(h: seq<Byte>)
    requires |h| == HEADER
    ensures var g := SetField(h, 4, 2, FILE_VERSION_ZSTD);
            g[..4] == h[..4] && g[6..RESERVED] == h[6..RESERVED] && Field(g, 6, 4) == Field(h, 6, 4)
  {
    SetFieldElsewhere(h, 4, 2, FILE_VERSION_ZSTD, 6, 4);
  }

  /** Going there and back changes nothing but the reserved bytes, which come back cleared. */
  lemma HeaderRoundTrip(h: seq<Byte>, g: seq<Byte>)
    requires |h| == |g| == HEADER && Version(h) == FILE_VERSION
    requires g[..4] == h[..4] && g[6..RESERVED] == h[6..RESERVED]
    ensures RawHeader(g) == h[..RESERVED] + seq(28, _ => 0)
  {
    TwoBytes(h[4..6]);
    assert ToLe(FILE_VERSION, 2) == h[4..6];
    var r := RawHeader(g);
    assert forall k :: 0 <= k < RESERVED ==> r[k] == h[k] by {
      assert forall k :: 0 <= k < 4 ==> r[k] == g[..4][k] == h[..4][k];
      assert forall k :: 6 <= k < RESERVED ==> r[k] == g[6..RESERVED][k - 6] == h[6..RESERVED][k - 6];
      assert r[4] == ToLe(FILE_VERSION, 2)[0] && r[5] == ToLe(FILE_VERSION, 2)[1];
    }
  }

  lemma TwoBytes(s: seq<Byte>)
    requires |s| == 2
    ensures ToLe(Le(s), 2) == s
  {
    var a: int, b: int := s[0], s[1];
    assert Le(s) == a + 256 * b by {
      assert Le(s[1..]) == b + 256 * Le(s[1..][1..]);
    }
    assert ToLe(Le(s), 2) == [Le(s) % 256] + ToLe(Le(s) / 256, 1);
  }

  // --------------------------------------------------------- column delta

  function DeltaFrom(prev: Byte, row: seq<Byte>): (d: seq<Byte>)
    ensures |d| == |row|
    decreases |row|
  {
    if row == [] then [] else [(row[0] - prev) % 256] + DeltaFrom(row[0], row[1..])
  }

  function SumFrom(acc: Byte, d: seq<Byte>): (row: seq<Byte>)
    ensures |row| == |d|
    decreases |d|
  {
    if d == [] then [] else [(acc + d[0]) % 256] + SumFrom((acc + d[0]) % 256, d[1..])
  }

  lemma Undone(prev: Byte, x: Byte)
    ensures (prev + (x - prev) % 256) % 256 == x
  {
  }

  lemma {:induction false} DeltaRoundTrip(prev: Byte, row: seq<Byte>)
    ensures SumFrom(prev, DeltaFrom(prev, row)) == row
    decreases |row|
  {
    if row != [] {
      DeltaRoundTrip(row[0], row[1..]);
      Undone(prev, row[0]);
      assert DeltaFrom(prev, row)[1..] == DeltaFrom(row[0], row[1..]);
    }
  }

  function DeltaRows(raw: seq<Byte>, w: nat, rows: nat): (d: seq<Byte>)
    requires |raw| == rows * w
    ensures |d| == |raw|
  {
    if rows == 0 then []
    else
      RowSplit(rows, w);
      DeltaRows(raw[..(rows - 1) * w], w, rows - 1) + DeltaFrom(0, raw[(rows - 1) * w..])
  }

  function SumRows(d: seq<Byte>, w: nat, rows: nat): (raw: seq<Byte>)
    requires |d| == rows * w
    ensures |raw| == |d|
  {
    if rows == 0 then []
    else
      RowSplit(rows, w);
      SumRows(d[..(rows - 1) * w], w, rows - 1) + SumFrom(0, d[(rows - 1) * w..])
  }

  lemma RowSplit(rows: nat, w: nat)
    requires rows > 0
    ensures (rows - 1) * w >= 0 && rows * w == (rows - 1) * w + w
  {
  }

  lemma {:induction false} RowsRoundTrip(raw: seq<Byte>, w: nat, rows: nat)
    requires |raw| == rows * w
    ensures SumRows(DeltaRows(raw, w, rows), w, rows) == raw
  {
    hide DeltaRows, SumRows, DeltaFrom, SumFrom;
    if rows > 0 {
      RowSplit(rows, w);
      var k := (rows - 1) * w;
      var d, e := DeltaRows(raw[..k], w, rows - 1), DeltaFrom(0, raw[k..]);
      LastRow(raw, w, rows);
      LastRow(d + e, w, rows);
      assert (d + e)[..k] == d && (d + e)[k..] == e;
      RowsRoundTrip(raw[..k], w, rows - 1);
      DeltaRoundTrip(0, raw[k..]);
    } else {
      NoRows(raw, w);
    }
  }

  /** The last row comes after the others, both ways. */
  lemma LastRow(s: seq<Byte>, w: nat, rows: nat)
    requires rows > 0 && |s| == rows * w && 0 <= (rows - 1) * w <= |s|
    ensures DeltaRows(s, w, rows) == DeltaRows(s[..(rows - 1) * w], w, rows - 1) + DeltaFrom(0, s[(rows - 1) * w..])
    ensures SumRows(s, w, rows) == SumRows(s[..(rows - 1) * w], w, rows - 1) + SumFrom(0, s[(rows - 1) * w..])
  {
    hide DeltaFrom, SumFrom;
  }

  lemma NoRows(s: seq<Byte>, w: nat)
    requires |s| == 0 * w
    ensures SumRows(DeltaRows(s, w, 0), w, 0) == s
  {
  }

  // ---------------------------------------------------- container contents

  datatype Entry = Entry(frameOffset: nat, compLen: nat, rawRows: nat)

  predicate EntryFits(e: Entry) {
    e.frameOffset < 0x1_0000_0000_0000_0000 && e.compLen < 0x1_0000_0000 && e.rawRows < 0x1_0000_0000
  }

  function EntryBytes(e: Entry): (s: seq<Byte>)
    ensures |s| == ENTRY
  {
    ToLe(e.frameOffset, 8) + ToLe(e.compLen, 4) + ToLe(e.rawRows, 4)
  }

  function EntryAt(f: seq<Byte>, off: nat): Entry
    requires off + ENTRY <= |f|
  {
    Entry(Field(f, off, 8), Field(f, off + 8, 4), Field(f, off + 12, 4))
  }

  lemma EntryRoundTrip(f: seq<Byte>, off: nat, e: Entry)
    requires off + ENTRY <= |f| && f[off..off + ENTRY] == EntryBytes(e) && EntryFits(e)
    ensures EntryAt(f, off) == e
  {
    hide Le, ToLe, Pow256;
    Powers();
    LeRoundTrip(e.frameOffset, 8);
    LeRoundTrip(e.compLen, 4);
    LeRoundTrip(e.rawRows, 4);
    Parts(ToLe(e.frameOffset, 8), ToLe(e.compLen, 4), ToLe(e.rawRows, 4));
    SliceOfSlice(f, off, off + ENTRY, off, off + 8);
    SliceOfSlice(f, off, off + ENTRY, off + 8, off + 12);
    SliceOfSlice(f, off, off + ENTRY, off + 12, off + 16);
  }

  lemma Parts(a: seq<Byte>, b: seq<Byte>, c: seq<Byte>)
    requires |a| == 8 && |b| == 4 && |c| == 4
    ensures (a + b + c)[0..8] == a && (a + b + c)[8..12] == b && (a + b + c)[12..16] == c
  {
  }

  function IndexBytes(es: seq<Entry>): (s: seq<Byte>)
    ensures |s| == ENTRY * |es|
  {
    if es == [] then [] else IndexBytes(es[..|es| - 1]) + EntryBytes(es[|es| - 1])
  }

  lemma {:induction false} IndexSlice(es: seq<Entry>, i: nat)
    requires i < |es|
    ensures IndexBytes(es)[ENTRY * i..ENTRY * i + ENTRY] == EntryBytes(es[i])
  {
    var n := |es| - 1;
    if i < n {
      IndexSlice(es[..n], i);
      assert IndexBytes(es)[ENTRY * i..ENTRY * i + ENTRY] == IndexBytes(es[..n])[ENTRY * i..ENTRY * i + ENTRY];
    }
  }

  function Concat(fs: seq<seq<Byte>>): seq<Byte> {
    if fs == [] then [] else Concat(fs[..|fs| - 1]) + fs[|fs| - 1]
  }

  lemma {:induction false} ConcatSlice(fs: seq<seq<Byte>>, i: nat)
    requires i < |fs|
    ensures |Concat(fs[..i])| + |fs[i]| <= |Concat(fs)|
    ensures Concat(fs)[|Concat(fs[..i])|..|Concat(fs[..i])| + |fs[i]|] == fs[i]
  {
    var n := |fs| - 1;
    if i < n {
      ConcatSlice(fs[..n], i);
      assert fs[..n][..i] == fs[..i];
    } else {
      assert fs[..i] == fs[..n];
    }
  }
}
