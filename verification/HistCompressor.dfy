/** The compressor and decompressor as they run: one block at a time through byte buffers. */
module HistCompressor {
  import opened Prelude
  import opened LittleEndian
  import opened HistFormat
  import opened HistCodec

  // ------------------------------------------------- one row at a time

  lemma {:induction false} DeltaAt(prev: Byte, row: seq<Byte>, i: nat)
    requires i < |row|
    ensures DeltaFrom(prev, row)[i] == (row[i] - (if i == 0 then prev else row[i - 1])) % 256
    decreases i
  {
    if i > 0 {
      DeltaAt(row[0], row[1..], i - 1);
    }
  }

  lemma {:induction false} SumAt(acc: Byte, d: seq<Byte>, i: nat)
    requires i < |d|
    ensures SumFrom(acc, d)[i] == ((if i == 0 then acc else SumFrom(acc, d)[i - 1]) + d[i]) % 256
    decreases i
  {
    if i > 0 {
      SumAt((acc + d[0]) % 256, d[1..], i - 1);
    }
  }

  method DeltaRow(s: array<Byte>, d: array<Byte>, base: nat, w: nat)
    requires s != d && base + w <= s.Length == d.Length
    modifies d
    ensures d[..base] == old(d[..base]) && d[base..base + w] == DeltaFrom(0, s[base..base + w])
  {
    hide DeltaFrom;
    ghost var row := s[base..base + w];
    var prev: Byte := 0;
    var i := 0;
    while i < w
      invariant 0 <= i <= w
      invariant prev == if i == 0 then 0 else row[i - 1]
      invariant s[base..base + w] == row
      invariant d[..base] == old(d[..base])
      invariant forall k :: 0 <= k < i ==> d[base + k] == DeltaFrom(0, row)[k]
    {
      DeltaAt(0, row, i);
      assert s[base + i] == row[i];
      d[base + i] := (s[base + i] - prev) % 256;
      prev := s[base + i];
      i := i + 1;
    }
  }

  /** The running sum, over the row it is read from. */
  method SumRowInPlace(a: array<Byte>, base: nat, w: nat)
    requires base + w <= a.Length
    modifies a
    ensures a[..base] == old(a[..base]) && a[base + w..] == old(a[base + w..])
    ensures a[base..base + w] == SumFrom(0, old(a[base..base + w]))
  {
    hide SumFrom;
    ghost var row := a[base..base + w];
    var acc: Byte := 0;
    var i := 0;
    while i < w
      invariant 0 <= i <= w
      invariant acc == if i == 0 then 0 else SumFrom(0, row)[i - 1]
      invariant a[..base] == old(a[..base]) && a[base + w..] == old(a[base + w..])
      invariant forall k :: 0 <= k < i ==> a[base + k] == SumFrom(0, row)[k]
      invariant forall k :: i <= k < w ==> a[base + k] == row[k]
    {
      SumAt(0, row, i);
      acc := (acc + a[base + i]) % 256;
      a[base + i] := acc;
      i := i + 1;
    }
  }

  // ------------------------------------------------ one block at a time

  lemma NextRow(rr: nat, rows: nat, w: nat)
    requires rr < rows
    ensures 0 <= rr * w && rr * w + w == (rr + 1) * w <= rows * w
  {
    TakeRows(rows, rr + 1, w);
  }

  lemma DeltaNextRow(raw: seq<Byte>, w: nat, rr: nat)
    requires |raw| == (rr + 1) * w && rr * w <= |raw|
    ensures DeltaRows(raw, w, rr + 1) == DeltaRows(raw[..rr * w], w, rr) + DeltaFrom(0, raw[rr * w..])
  {
  }

  lemma SumNextRow(d: seq<Byte>, w: nat, rr: nat)
    requires |d| == (rr + 1) * w && rr * w <= |d|
    ensures SumRows(d, w, rr + 1) == SumRows(d[..rr * w], w, rr) + SumFrom(0, d[rr * w..])
  {
  }

  method DeltaBlock(s: array<Byte>, d: array<Byte>, rows: nat, w: nat)
    requires s != d && rows * w <= s.Length == d.Length
    modifies d
    ensures d[..rows * w] == DeltaRows(s[..rows * w], w, rows)
  {
    hide DeltaRows, DeltaFrom;
    ghost var raw := s[..rows * w];
    var rr := 0;
    assert d[..0 * w] == DeltaRows(raw[..0 * w], w, 0);
    while rr < rows
      invariant 0 <= rr <= rows && rr * w <= rows * w
      invariant s[..rows * w] == raw
      invariant d[..rr * w] == DeltaRows(raw[..rr * w], w, rr)
    {
      NextRow(rr, rows, w);
      var base := rr * w;
      DeltaRow(s, d, base, w);
      DeltaNextRow(raw[..base + w], w, rr);
      SliceOfSlice(raw, 0, base + w, 0, base);
      SliceOfSlice(raw, 0, base + w, base, base + w);
      SliceOfSlice(s[..], 0, rows * w, base, base + w);
      Halves(d[..], base, base + w);
      assert d[..][..base + w] == d[..base + w];
      rr := rr + 1;
    }
    assert raw[..rows * w] == raw;
  }

  /** One more row of the running sums is in place. */
  lemma SummedOneMore(before: seq<Byte>, after: seq<Byte>, d: seq<Byte>, w: nat, rr: nat, rows: nat)
    requires rr < rows && |d| == rows * w && 0 <= rr * w <= |before| == |after| && rows * w <= |after|
    requires before[..rr * w] == SumRows(d[..rr * w], w, rr) && before[rr * w..rows * w] == d[rr * w..]
    requires rr * w + w <= |after| && after[..rr * w] == before[..rr * w] && after[rr * w + w..] == before[rr * w + w..]
    requires after[rr * w..rr * w + w] == SumFrom(0, before[rr * w..rr * w + w])
    ensures rr * w + w == (rr + 1) * w <= rows * w
    ensures after[..(rr + 1) * w] == SumRows(d[..(rr + 1) * w], w, rr + 1)
    ensures after[(rr + 1) * w..rows * w] == d[(rr + 1) * w..]
  {
    hide SumRows, SumFrom;
    NextRow(rr, rows, w);
    SumNextRow(d[..(rr + 1) * w], w, rr);
    SlicesMeet(before, after, d, rr * w, (rr + 1) * w, rows * w);
    Halves(after, rr * w, (rr + 1) * w);
  }

  lemma SlicesMeet(before: seq<Byte>, after: seq<Byte>, d: seq<Byte>, i: nat, j: nat, n: nat)
    requires i <= j <= n == |d| && n <= |before| == |after|
    requires before[i..n] == d[i..] && after[j..] == before[j..]
    ensures d[..j][..i] == d[..i] && d[..j][i..] == d[i..j]
    ensures before[i..j] == d[i..j] && after[j..n] == d[j..]
  {
    forall k | i <= k < n
      ensures before[k] == d[k]
    {
      assert before[i..n][k - i] == d[i..][k - i];
    }
    forall k | j <= k < |after|
      ensures after[k] == before[k]
    {
      assert after[j..][k - j] == before[j..][k - j];
    }
  }

  lemma Halves(s: seq<Byte>, i: nat, j: nat)
    requires i <= j <= |s|
    ensures s[..j] == s[..i] + s[i..j]
  {
  }

  method SumBlockInPlace(a: array<Byte>, rows: nat, w: nat)
    requires rows * w <= a.Length
    modifies a
    ensures a[..rows * w] == SumRows(old(a[..rows * w]), w, rows)
  {
    hide SumRows, SumFrom;
    ghost var d := a[..rows * w];
    var rr := 0;
    assert a[..0 * w] == SumRows(d[..0 * w], w, 0);
    while rr < rows
      invariant 0 <= rr <= rows && 0 <= rr * w <= rows * w
      invariant a[..rr * w] == SumRows(d[..rr * w], w, rr)
      invariant a[rr * w..rows * w] == d[rr * w..]
    {
      NextRow(rr, rows, w);
      var base := rr * w;
      ghost var before := a[..];
      assert before[..base] == a[..base] && before[base..rows * w] == a[base..rows * w];
      SumRowInPlace(a, base, w);
      ghost var after := a[..];
      assert after[..base] == a[..base] && after[base..base + w] == a[base..base + w];
      assert after[base + w..] == a[base + w..];
      SummedOneMore(before, after, d, w, rr, rows);
      rr := rr + 1;
    }
    assert d[..rows * w] == d;
  }

  method ReadInto(buf: array<Byte>, f: seq<Byte>, pos: nat, n: nat)
    requires n <= buf.Length && pos + n <= |f|
    modifies buf
    ensures buf[..n] == f[pos..pos + n]
  {
    var i := 0;
    while i < n
      invariant 0 <= i <= n
      invariant buf[..i] == f[pos..pos + i]
    {
      buf[i] := f[pos + i];
      i := i + 1;
    }
  }

  // --------------------------------------------------------- compression

  lemma AppendBlock(z: Zstd, done: seq<Block>, blk: Block, w: nat)
    requires AllSized(done, w) && WellSized(blk, w)
    ensures AllSized(done + [blk], w)
    ensures Payload(z, done + [blk], w) == Payload(z, done, w) + Frame(z, blk, w)
    ensures Index(z, done + [blk], w)
         == Index(z, done, w) + [Entry(HEADER + |Payload(z, done, w)|, |Frame(z, blk, w)|, blk.rows)]
  {
    hide Frame;
    assert (done + [blk])[..|done|] == done;
  }

  lemma SetFieldTwice(f: seq<Byte>, off: nat, n: nat, u: nat, v: nat)
    requires off + n <= |f|
    ensures SetField(SetField(f, off, n, u), off, n, v) == SetField(f, off, n, v)
  {
  }

  /** Writing the header first with a zero index offset and patching it at the end. */
  lemma PatchedHeader(h: seq<Byte>, blockRows: nat, numBlocks: nat, numRows: nat, indexOffset: nat)
    requires |h| == HEADER
    ensures SetField(CompressedHeader(h, blockRows, numBlocks, numRows, 0), 118, 8, indexOffset)
         == CompressedHeader(h, blockRows, numBlocks, numRows, indexOffset)
  {
    var g := SetField(SetField(SetField(SetField(SetField(SetField(h, 4, 2, FILE_VERSION_ZSTD),
      100, 1, CODEC_ZSTD), 101, 1, FLAG_COL_DELTA), 102, 4, blockRows), 106, 4, numBlocks), 110, 8, numRows);
    hide SetField;
    SetFieldTwice(g, 118, 8, 0, indexOffset);
  }

  /** The block the compressor takes next is the first of what is left. */
  lemma FirstBlock(body: seq<Byte>, w: nat, n: nat, blockRows: nat, all: seq<Block>, done: seq<Block>)
    returns (blk: Block)
    requires |body| == n * w && blockRows > 0 && n > 0
    requires done + Blocks(body, w, n, blockRows) == all
    ensures blk.rows == MinNat(blockRows, n) <= n
    ensures 0 <= blk.rows * w <= |body| && blk.raw == body[..blk.rows * w] && GoodBlock(blk, w, blockRows)
    ensures |body[blk.rows * w..]| == (n - blk.rows) * w
    ensures done + [blk] + Blocks(body[blk.rows * w..], w, n - blk.rows, blockRows) == all
  {
    var k := MinNat(blockRows, n);
    TakeRows(n, k, w);
    blk := Block(k, body[..k * w]);
    var rest := Blocks(body[k * w..], w, n - k, blockRows);
    assert Blocks(body, w, n, blockRows) == [blk] + rest;
    assert done + [blk] + rest == done + ([blk] + rest);
  }

  lemma RowsLeft(b: nat, blockRows: nat, n: nat)
    ensures (b + 1) * blockRows == b * blockRows + blockRows
  {
  }

  /** One block: read, delta-coded, compressed. */
  method CompressBlock(z: Zstd, f: seq<Byte>, pos: nat, rows: nat, w: nat, rawbuf: array<Byte>, deltabuf: array<Byte>)
    returns (frame: seq<Byte>)
    requires rawbuf != deltabuf && rows * w <= rawbuf.Length == deltabuf.Length && pos + rows * w <= |f|
    modifies rawbuf, deltabuf
    ensures frame == Frame(z, Block(rows, f[pos..pos + rows * w]), w)
  {
    hide DeltaRows;
    var rawLen := rows * w;
    ReadInto(rawbuf, f, pos, rawLen);
    DeltaBlock(rawbuf, deltabuf, rows, w);
    frame := z.compress(deltabuf[..rawLen]);
  }

  /** All blocks: the frames in order, and the index built beside them. */
  method CompressBody(z: Zstd, f: seq<Byte>, w: nat, numRows: nat, blockRows: nat, numBlocks: nat)
    returns (frames: seq<Byte>, index: seq<Entry>)
    requires w > 0 && blockRows > 0 && HEADER + numRows * w <= |f| && numBlocks == CountBlocks(numRows, blockRows)
    ensures var bs := Blocks(f[HEADER..HEADER + numRows * w], w, numRows, blockRows);
            && |bs| == numBlocks && AllSized(bs, w)
            && frames == Payload(z, bs, w) && index == Index(z, bs, w)
  {
    hide Blocks, Payload, Index, Frame, CountBlocks;
    ghost var all := Blocks(f[HEADER..HEADER + numRows * w], w, numRows, blockRows);
    BlocksCount(f[HEADER..HEADER + numRows * w], w, numRows, blockRows);
    var rawbuf, deltabuf := new Byte[blockRows * w], new Byte[blockRows * w];
    frames, index := [], [];
    var pos, left, fileOff := HEADER, numRows, HEADER;
    ghost var done: seq<Block> := [];
    ghost var rest := f[HEADER..HEADER + numRows * w];
    NoBlocks(z, w);
    var b := 0;
    while b < numBlocks
      invariant 0 <= b == |done| <= numBlocks
      invariant 0 <= pos && pos + |rest| <= |f| && rest == f[pos..pos + |rest|] && |rest| == left * w
      invariant left == if b * blockRows < numRows then numRows - b * blockRows else 0
      invariant done + Blocks(rest, w, left, blockRows) == all
      invariant AllSized(done, w) && frames == Payload(z, done, w) && index == Index(z, done, w)
      invariant fileOff == HEADER + |frames|
      modifies rawbuf, deltabuf
    {
      NoneLeft(rest, w, left, blockRows);
      assert left > 0;
      ghost var blk := FirstBlock(rest, w, left, blockRows, all, done);
      var rowsHere := MinNat(blockRows, numRows - b * blockRows);
      TakeRows(blockRows, rowsHere, w);
      var frame := CompressBlock(z, f, pos, rowsHere, w, rawbuf, deltabuf);
      assert blk == Block(rowsHere, f[pos..pos + rowsHere * w]);
      AppendBlock(z, done, blk, w);
      frames := frames + frame;
      index := index + [Entry(fileOff, |frame|, rowsHere)];
      fileOff := fileOff + |frame|;
      RowsLeft(b, blockRows, numRows);
      done, rest := done + [blk], rest[rowsHere * w..];
      pos := pos + rowsHere * w;
      left := left - rowsHere;
      b := b + 1;
    }
    assert Blocks(rest, w, left, blockRows) == [];
    assert done == all;
  }

  lemma NoBlocks(z: Zstd, w: nat)
    ensures Payload(z, [], w) == [] && Index(z, [], w) == []
  {
  }

  lemma NoneLeft(body: seq<Byte>, w: nat, n: nat, blockRows: nat)
    requires |body| == n * w && blockRows > 0
    ensures n == 0 ==> Blocks(body, w, n, blockRows) == []
  {
  }

  /** Header with a zero index offset, frames, index; then the header once more with the offset known. */
  method WriteContainer(z: Zstd, f: seq<Byte>, w: nat, numRows: nat, blockRows: nat) returns (out: seq<Byte>)
    requires w > 0 && blockRows > 0 && HEADER + numRows * w <= |f|
    ensures var bs := Blocks(f[HEADER..HEADER + numRows * w], w, numRows, blockRows);
            AllSized(bs, w) && out == Container(z, f[..HEADER], bs, w, numRows, blockRows)
  {
    hide Blocks, CompressedHeader, SetField, IndexBytes, Payload, Index, AllSized;
    var numBlocks := CountBlocks(numRows, blockRows);
    var head := CompressedHeader(f[..HEADER], blockRows, numBlocks, numRows, 0);
    var frames, index := CompressBody(z, f, w, numRows, blockRows, numBlocks);
    out := head + frames + IndexBytes(index);
    PatchedHeader(f[..HEADER], blockRows, numBlocks, numRows, HEADER + |frames|);
    head := SetField(head, 118, 8, HEADER + |frames|);
    out := head + out[HEADER..];
    assert out == head + frames + IndexBytes(index);
  }

  method CompressHist(z: Zstd, f: seq<Byte>) returns (g: Option<seq<Byte>>)
    ensures |f| < HEADER ==> g == None
    ensures |f| >= HEADER ==> g == CompressedFile(z, f, DefaultBlockRows(FftSize(f)))
  {
    hide Field, DefaultBlockRows, Blocks, Container;
    if |f| < HEADER || f[..4] != MAGIC || Version(f) != FILE_VERSION || FftSize(f) == 0 {
      return None;
    }
    var w := FftSize(f);
    var numRows := (|f| - HEADER) / w;
    if numRows == 0 {
      return None;
    }
    WholeFits(|f| - HEADER, w);
    var out := WriteContainer(z, f, w, numRows, DefaultBlockRows(w));
    g := Some(out);
  }

  // ------------------------------------------------------- decompression

  /** Once a block fails, so does everything after it. */
  lemma {:induction false} StaysNone(z: Zstd, f: seq<Byte>, b: nat, n: nat)
    requires Readable(f) && b <= n <= NumBlocks(f) && DecodeTo(z, f, b) == None
    ensures DecodeTo(z, f, n) == None
    decreases n - b
  {
    hide Readable, DecodeBlock, NumBlocks;
    if b < n {
      StaysNone(z, f, b + 1, n);
    }
  }

  /** One block through the buffer, or nothing when it does not check. */
  method DecompressBlock(z: Zstd, f: seq<Byte>, e: Entry, w: nat, blockRows: nat, delta: bool, raw: array<Byte>)
    returns (rows: Option<seq<Byte>>)
    requires raw.Length == blockRows * w
    modifies raw
    ensures rows == DecodeEntry(z, f, e, w, blockRows, delta)
  {
    hide SumRows;
    if e.rawRows == 0 || e.rawRows > blockRows || e.frameOffset + e.compLen > |f| {
      return None;
    }
    var want := e.rawRows * w;
    TakeRows(blockRows, e.rawRows, w);
    var d := z.decompress(f[e.frameOffset..e.frameOffset + e.compLen]);
    if d.None? || |d.value| != want {
      return None;
    }
    ReadInto(raw, d.value, 0, want);
    assert d.value[0..want] == d.value;
    if delta {
      SumBlockInPlace(raw, e.rawRows, w);
    }
    rows := Some(raw[..want]);
  }

  lemma ReadableHeader(f: seq<Byte>)
    requires Readable(f)
    ensures |f| >= HEADER
  {
  }

  method DecompressHist(z: Zstd, f: seq<Byte>) returns (g: Option<seq<Byte>>)
    ensures g == DecompressedFile(z, f)
  {
    hide Readable, Field, DecodeEntry, RawHeader, EntryOf, NumBlocks, FftSize, BlockRows, Flags, ColumnDelta;
    if !Readable(f) {
      return None;
    }
    ReadableHeader(f);
    var w, blockRows, delta := FftSize(f), BlockRows(f), ColumnDelta(Flags(f));
    var raw := new Byte[blockRows * w];
    var out := RawHeader(f[..HEADER]);
    ghost var body: seq<Byte> := [];
    var b := 0;
    while b < NumBlocks(f)
      invariant 0 <= b <= NumBlocks(f)
      invariant DecodeTo(z, f, b) == Some(body) && out == RawHeader(f[..HEADER]) + body
      modifies raw
    {
      var rows := DecompressBlock(z, f, EntryOf(f, b), w, blockRows, delta, raw);
      assert rows == DecodeBlock(z, f, b);
      if rows.None? {
        StaysNone(z, f, b + 1, NumBlocks(f));
        return None;
      }
      out := out + rows.value;
      body := body + rows.value;
      b := b + 1;
    }
    g := Some(out);
  }
}
