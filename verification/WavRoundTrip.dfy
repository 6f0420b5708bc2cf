/** Opening a file that was written gives back its format, its frame count and every byte of its data. */
module WavRoundTrip {
  import Powers
  import WavReader
  import opened Bytes
  import opened WavFormat
  import opened WavParser
  import opened WavWriter

  /** The bytes `s` stand at `pos`. */
  predicate Stands(d: seq<Byte>, pos: nat, s: seq<Byte>) {
    pos + |s| <= |d| && d[pos..pos + |s|] == s
  }

  lemma StandsApart(d: seq<Byte>, pos: nat, s: seq<Byte>, t: seq<Byte>)
    requires Stands(d, pos, s + t)
    ensures Stands(d, pos, s) && Stands(d, pos + |s|, t)
  {
    SliceOfSlice(d, pos, pos + |s + t|, 0, |s|);
    SliceOfSlice(d, pos, pos + |s + t|, |s|, |s + t|);
    assert (s + t)[0..|s|] == s && (s + t)[|s|..|s + t|] == t;
  }

  lemma StandsInside(d: seq<Byte>, pos: nat, s: seq<Byte>)
    requires Stands(d, pos, s)
    ensures pos + |s| <= |d|
  {
  }

  lemma StandsTogether(d: seq<Byte>, pos: nat, s: seq<Byte>, i: nat, j: nat)
    requires Stands(d, pos, s) && i <= j <= |s|
    ensures d[pos + i..pos + j] == s[i..j]
  {
    SliceOfSlice(d, pos, pos + |s|, i, j);
  }

  // Metadata the reader skips.

  /** A sequence of whole chunks, none of which the reader looks into. */
  predicate Skippable(e: seq<Byte>)
    decreases |e|
  {
    e == [] || (|e| >= 8 && SkippedId(e[..4]) && ChunkEnd(e) <= |e| && Skippable(e[ChunkEnd(e)..]))
  }

  predicate SkippedId(id: seq<Byte>) {
    id != FMT_ID && id != DATA_ID && id != FACT_ID
  }

  /** Where the chunk at the start of `e` ends, its padding included. */
  function ChunkEnd(e: seq<Byte>): (r: nat)
    requires |e| >= 8
    ensures r >= 8
  {
    var size := FromLittle(e[4..8]);
    8 + size + PaddingRiff(size)
  }

  function ChunkCount(e: seq<Byte>): nat
    requires Skippable(e)
    decreases |e|
  {
    if e == [] then 0 else 1 + ChunkCount(e[ChunkEnd(e)..])
  }

  lemma {:induction false} CountFits(e: seq<Byte>)
    requires Skippable(e)
    ensures 8 * ChunkCount(e) <= |e|
    decreases |e|
  {
    if e != [] {
      CountFits(e[ChunkEnd(e)..]);
      hide ChunkEnd;
    }
  }

  /** The walk passes over such chunks. */
  lemma {:induction false} WalkSkips(d: seq<Byte>, c: Container, p: Progress, e: seq<Byte>, fuel: nat)
    requires (c == Riff || c == Rf64) && |d| < TWO_TO_THE_64 && p.cursor == p.pos && Stands(d, p.pos, e)
    requires Skippable(e) && ChunkCount(e) <= fuel
    ensures p.pos + |e| <= |d|
    ensures WalkChunks(d, c, p, fuel) == WalkChunks(d, c, p.(pos := p.pos + |e|, cursor := p.pos + |e|), fuel - ChunkCount(e))
    decreases |e|
  {
    hide ReadChunk, FromLittle, ChunkEnd, SkippedId, ReadHeader;
    if e != [] {
      var n := ChunkEnd(e);
      var rest := e[n..];
      SkipOne(d, c, p, e);
      assert e == e[..n] + rest;
      StandsApart(d, p.pos, e[..n], rest);
      WalkSkips(d, c, p.(pos := p.pos + n, cursor := p.pos + n), rest, fuel - 1);
    }
  }

  lemma SkipOne(d: seq<Byte>, c: Container, p: Progress, e: seq<Byte>)
    requires (c == Riff || c == Rf64) && |d| < TWO_TO_THE_64 && p.cursor == p.pos && Stands(d, p.pos, e)
    requires |e| >= 8 && SkippedId(e[..4]) && ChunkEnd(e) <= |e|
    ensures ReadChunk(d, c, p) == More(p.(pos := p.pos + ChunkEnd(e), cursor := p.pos + ChunkEnd(e)))
  {
    hide FromLittle, FromBig, ReadFmtChunk, ReadFactChunk;
    StandsTogether(d, p.pos, e, 0, 4);
    StandsTogether(d, p.pos, e, 4, 8);
  }

  /** A chunk header that stands in the file is what is read there. */
  lemma HeaderStands(d: seq<Byte>, c: Container, pos: nat, id: seq<Byte>, size: nat)
    requires c != Rifx && |id| == IdBytes(c) && size < TWO_TO_THE_32
    requires Stands(d, pos, id) && Stands(d, pos + |id|, Little(if c == W64 then size + 24 else size, SizeBytes(c)))
    ensures ReadHeader(d, c, pos) == Some(ChunkHeader(id, size, Padding(c, size), pos + HeaderBytes(c)))
  {
    LittleSizes(size);
    LittleSizes(size + 24);
    hide Little, FromLittle;
  }

  /** The "fmt " chunk the writer writes is read back. */
  lemma FmtChunkStands(d: seq<Byte>, c: Container, p: Progress, fmt: Fmt)
    requires c != Rifx && fmt.Valid() && |d| < TWO_TO_THE_64 && p.cursor == p.pos
    requires Stands(d, p.pos, FmtChunk(c, fmt))
    ensures p.pos + HeaderBytes(c) + 16 <= |d|
    ensures var q := p.pos + HeaderBytes(c) + 16;
      ReadChunk(d, c, p) == More(p.(pos := q, cursor := q, foundFmt := true, fmt := fmt, subFormat := 0))
  {
    hide Stands, ReadChunk, ReadFmtChunk, ReadHeader;
    FmtHeaderStands(d, c, p.pos, fmt);
    var h := ChunkHeader(FmtId(c), 16, 0, p.pos + HeaderBytes(c));
    FmtComesNext(d, c, p, h);
    FmtBodyStands(d, c, p.(pos := h.body, cursor := h.body), fmt, h);
  }

  lemma FmtHeaderStands(d: seq<Byte>, c: Container, pos: nat, fmt: Fmt)
    requires c != Rifx && Stands(d, pos, FmtChunk(c, fmt))
    ensures pos <= |d| && ReadHeader(d, c, pos) == Some(ChunkHeader(FmtId(c), 16, 0, pos + HeaderBytes(c)))
    ensures pos + HeaderBytes(c) <= |d| && Stands(d, pos + HeaderBytes(c), FmtBytes(fmt))
  {
    hide Little, FmtBytes, ReadHeader, FmtId;
    var size := if c == W64 then Little(40, 8) else Little(16, 4);
    assert pos + |FmtChunk(c, fmt)| <= |d|;
    hide Stands;
    StandsApart(d, pos, FmtId(c) + size, FmtBytes(fmt));
    StandsApart(d, pos, FmtId(c), size);
    HeaderStands(d, c, pos, FmtId(c), 16);
  }

  lemma FmtComesNext(d: seq<Byte>, c: Container, p: Progress, h: ChunkHeader)
    requires |d| < TWO_TO_THE_64 && p.cursor == p.pos <= |d|
    requires ReadHeader(d, c, p.pos) == Some(h) && h.id == FmtId(c)
    ensures ReadChunk(d, c, p) == ReadFmtChunk(d, c, p.(pos := h.body, cursor := h.body), h)
  {
    hide ReadFmtChunk, FmtId;
    assert h.body == p.pos + HeaderBytes(c);
  }

  lemma FmtBodyStands(d: seq<Byte>, c: Container, p: Progress, fmt: Fmt, h: ChunkHeader)
    requires c != Rifx && fmt.Valid() && |d| < TWO_TO_THE_64 && p.cursor == p.pos && h.size == 16 && h.padding == 0
    requires Stands(d, p.pos, FmtBytes(fmt))
    ensures p.pos + 16 <= |d|
    ensures ReadFmtChunk(d, c, p, h) == More(p.(pos := p.pos + 16, cursor := p.pos + 16, foundFmt := true, fmt := fmt, subFormat := 0))
  {
    FmtRoundTrip(c, fmt);
    hide FmtBytes, ReadFmt, ReadExtension;
  }

  /** The data chunk's header is where the walk ends. */
  lemma DataChunkStands(d: seq<Byte>, c: Container, p: Progress, size: nat)
    requires c != Rifx && |d| < TWO_TO_THE_64 && p.cursor == p.pos && (if c == W64 then size + 24 < TWO_TO_THE_64 else size < TWO_TO_THE_32)
    requires Stands(d, p.pos, DataId(c)) && Stands(d, p.pos + IdBytes(c), Little(if c == W64 then size + 24 else size, SizeBytes(c)))
    ensures var q := p.pos + HeaderBytes(c);
      ReadChunk(d, c, p) == FoundData(p.(pos := q, cursor := q), size)
  {
    hide Little, FromLittle, FmtId, DataId, Stands, ReadChunk, ReadHeader;
    DataHeaderStands(d, c, p.pos, size);
    DataComesNext(d, c, p, size);
  }

  lemma DataHeaderStands(d: seq<Byte>, c: Container, pos: nat, size: nat)
    requires c != Rifx && (if c == W64 then size + 24 < TWO_TO_THE_64 else size < TWO_TO_THE_32)
    requires Stands(d, pos, DataId(c)) && Stands(d, pos + IdBytes(c), Little(if c == W64 then size + 24 else size, SizeBytes(c)))
    ensures pos + HeaderBytes(c) <= |d|
    ensures ReadHeader(d, c, pos) == Some(ChunkHeader(DataId(c), size, Padding(c, size), pos + HeaderBytes(c)))
  {
    LittleSizes(size);
    LittleSizes(size + 24);
    hide Little, FromLittle, DataId;
  }

  lemma DataComesNext(d: seq<Byte>, c: Container, p: Progress, size: nat)
    requires |d| < TWO_TO_THE_64 && p.cursor == p.pos && p.pos + HeaderBytes(c) <= |d|
    requires ReadHeader(d, c, p.pos) == Some(ChunkHeader(DataId(c), size, Padding(c, size), p.pos + HeaderBytes(c)))
    ensures var q := p.pos + HeaderBytes(c); ReadChunk(d, c, p) == FoundData(p.(pos := q, cursor := q), size)
  {
    IdsDiffer(c);
    hide ReadFmtChunk, ReadFactChunk, Forward, FmtId, DataId, ReadHeader;
  }

  lemma IdsDiffer(c: Container)
    ensures FmtId(c) != DataId(c)
  {
    assert FmtId(c)[0] != DataId(c)[0];
  }

  // The parts of a finished file.

  /** Where the header ends and the data begins. */
  function DataStart(c: Container, fmt: Fmt, extra: seq<Byte>): nat {
    match c
    case W64 => 104
    case Rf64 => 80 + |extra|
    case _ => 44 + |extra|
  }

  /** Where the first chunk after the container's own header is. */
  function ChunksStart(c: Container): nat {
    if c == W64 then 40 else if c == Rf64 then 48 else 12
  }

  /** What stands before the chunks. */
  predicate HeadLaid(d: seq<Byte>, c: Container, extra: nat, n: nat) {
    && Stands(d, 0, if c == W64 then W64_RIFF_ID else if c == Rf64 then RF64_ID else RIFF_ID)
    && (c == W64 ==> Stands(d, 16, Little(RiffChunkSize(c, extra, n), 8)) && Stands(d, 24, W64_WAVE_ID))
    && (c != W64 ==> Stands(d, 8, WAVE_ID))
    && (c == Rf64 ==>
          && Stands(d, 4, Little(MAX_UINT32, 4)) && Stands(d, 12, DS64_ID) && Stands(d, 16, Little(28, 4))
          && Stands(d, 28, Little(n, 8)) && Stands(d, 36, Little(0, 8)))
  }

  /** What stands where in the file of a container. */
  predicate Laid(d: seq<Byte>, c: Container, fmt: Fmt, extra: seq<Byte>, samples: seq<Byte>) {
    var n, chunks, data := |samples|, ChunksStart(c), DataStart(c, fmt, extra);
    && HeadLaid(d, c, |extra|, n)
    && Stands(d, chunks, FmtChunk(c, fmt)) && Stands(d, chunks + HeaderBytes(c) + 16, extra)
    && Stands(d, data - HeaderBytes(c), DataId(c))
    && Stands(d, data - SizeBytes(c), Little(if c == Rf64 then MAX_UINT32 else DataChunkSize(c, n), SizeBytes(c)))
    && Stands(d, data, samples) && |d| == data + n + Padding(c, n)
  }

  /** The three parts between the sizes of a header. */
  lemma HeaderParts(d: seq<Byte>, c: Container, fmt: Fmt, extra: seq<Byte>, riff: nat, data: nat)
    requires Stands(d, 0, Header(c, fmt, extra, riff, data))
    ensures var a, s, b, t := |BeforeRiffSize(c)|, |SizeField(c, riff)|, |BetweenSizes(c, fmt, extra)|, |SizeField(c, data)|;
      && Stands(d, 0, BeforeRiffSize(c)) && Stands(d, a, SizeField(c, riff))
      && Stands(d, a + s, BetweenSizes(c, fmt, extra)) && Stands(d, a + s + b, SizeField(c, data))
      && Stands(d, a + s + b + t, AfterDataSize(c, fmt, extra))
  {
    var a, r, b, t, e := BeforeRiffSize(c), SizeField(c, riff), BetweenSizes(c, fmt, extra), SizeField(c, data), AfterDataSize(c, fmt, extra);
    hide BeforeRiffSize, SizeField, BetweenSizes, AfterDataSize, Stands;
    StandsApart(d, 0, a + r + b + t, e);
    StandsApart(d, 0, a + r + b, t);
    StandsApart(d, 0, a + r, b);
    StandsApart(d, 0, a, r);
  }

  lemma ChunksLaid(d: seq<Byte>, pos: nat, c: Container, fmt: Fmt, extra: seq<Byte>)
    requires Stands(d, pos, Chunks(c, fmt, extra))
    ensures |FmtChunk(c, fmt)| == HeaderBytes(c) + 16
    ensures Stands(d, pos, FmtChunk(c, fmt)) && Stands(d, pos + HeaderBytes(c) + 16, extra)
    ensures Stands(d, pos + HeaderBytes(c) + 16 + |extra|, DataId(c))
    ensures |Chunks(c, fmt, extra)| == HeaderBytes(c) + 16 + |extra| + IdBytes(c)
  {
    var f, i := FmtChunk(c, fmt), DataId(c);
    assert |f| == HeaderBytes(c) + 16 && |i| == IdBytes(c);
    hide FmtChunk, DataId, Stands;
    StandsApart(d, pos, f + extra, i);
    StandsApart(d, pos, f, extra);
  }

  lemma HeaderLaid(d: seq<Byte>, c: Container, fmt: Fmt, extra: seq<Byte>, n: nat)
    requires c != Rifx && (c == W64 ==> extra == [])
    requires Stands(d, 0, Header(c, fmt, extra, RiffChunkSize(c, |extra|, n), DataChunkSize(c, n)))
    ensures HeadLaid(d, c, |extra|, n)
    ensures Stands(d, ChunksStart(c), Chunks(c, fmt, extra))
    ensures Stands(d, ChunksStart(c) + |Chunks(c, fmt, extra)|, Little(if c == Rf64 then MAX_UINT32 else DataChunkSize(c, n), SizeBytes(c)))
  {
    hide Chunks, RiffChunkSize, Stands, Header;
    var riff, data := RiffChunkSize(c, |extra|, n), DataChunkSize(c, n);
    HeaderParts(d, c, fmt, extra, riff, data);
    var x := Chunks(c, fmt, extra);
    if c == Rf64 {
      hide BeforeRiffSize;
      HeadOfRf64(d);
      TailOfRf64(d, x);
    } else if c == W64 {
      hide Little;
      StandsApart(d, 24, W64_WAVE_ID, x);
    } else {
      hide Little;
      StandsApart(d, 8, WAVE_ID, x);
    }
  }

  lemma HeadOfRf64(d: seq<Byte>)
    requires Stands(d, 0, BeforeRiffSize(Rf64))
    ensures Stands(d, 0, RF64_ID) && Stands(d, 4, Little(MAX_UINT32, 4)) && Stands(d, 8, WAVE_ID)
    ensures Stands(d, 12, DS64_ID) && Stands(d, 16, Little(28, 4))
  {
    hide Stands, Little;
    StandsApart(d, 0, RF64_ID + Little(MAX_UINT32, 4) + WAVE_ID + DS64_ID, Little(28, 4));
    StandsApart(d, 0, RF64_ID + Little(MAX_UINT32, 4) + WAVE_ID, DS64_ID);
    StandsApart(d, 0, RF64_ID + Little(MAX_UINT32, 4), WAVE_ID);
    StandsApart(d, 0, RF64_ID, Little(MAX_UINT32, 4));
  }

  lemma TailOfRf64(d: seq<Byte>, x: seq<Byte>)
    requires Stands(d, 36, Little(0, 8) + Little(0, 4) + x + Little(MAX_UINT32, 4))
    ensures Stands(d, 36, Little(0, 8)) && Stands(d, 48, x) && Stands(d, 48 + |x|, Little(MAX_UINT32, 4))
  {
    hide Stands, Little;
    StandsApart(d, 36, Little(0, 8) + Little(0, 4) + x, Little(MAX_UINT32, 4));
    StandsApart(d, 36, Little(0, 8) + Little(0, 4), x);
    StandsApart(d, 36, Little(0, 8), Little(0, 4));
  }

  lemma ImageLaid(c: Container, fmt: Fmt, extra: seq<Byte>, samples: seq<Byte>)
    requires c != Rifx && (c == W64 ==> extra == [])
    ensures Laid(Image(c, fmt, extra, samples), c, fmt, extra, samples)
  {
    var n := |samples|;
    var h := Header(c, fmt, extra, RiffChunkSize(c, |extra|, n), DataChunkSize(c, n));
    HeaderSize(c, fmt, extra, RiffChunkSize(c, |extra|, n), DataChunkSize(c, n));
    PartsLaid(h + samples + Zeros(Padding(c, n)), h, c, fmt, extra, samples);
  }

  lemma PartsLaid(d: seq<Byte>, h: seq<Byte>, c: Container, fmt: Fmt, extra: seq<Byte>, samples: seq<Byte>)
    requires c != Rifx && (c == W64 ==> extra == [])
    requires h == Header(c, fmt, extra, RiffChunkSize(c, |extra|, |samples|), DataChunkSize(c, |samples|))
    requires |h| == DataStart(c, fmt, extra) && d == h + samples + Zeros(Padding(c, |samples|))
    ensures Laid(d, c, fmt, extra, samples)
  {
    var n := |samples|;
    StandsWhole(d);
    hide Stands, Header, Chunks, HeadLaid, Little, FmtChunk, FmtBytes, DataId, DataChunkSize, RiffChunkSize;
    StandsApart(d, 0, h + samples, Zeros(Padding(c, n)));
    StandsApart(d, 0, h, samples);
    HeaderLaid(d, c, fmt, extra, n);
    ChunksLaid(d, ChunksStart(c), c, fmt, extra);
  }

  lemma StandsWhole(d: seq<Byte>)
    ensures Stands(d, 0, d)
  {
  }

  lemma HeaderSize(c: Container, fmt: Fmt, extra: seq<Byte>, riff: nat, data: nat)
    requires c != Rifx && (c == W64 ==> extra == [])
    ensures |Header(c, fmt, extra, riff, data)| == DataStart(c, fmt, extra)
  {
  }

  /** The start of the file is recognised. */
  lemma OpeningStands(d: seq<Byte>, c: Container, extra: nat, n: nat)
    requires c != Rifx && HeadLaid(d, c, extra, n) && |d| >= ChunksStart(c) && n + 200 < TWO_TO_THE_64
    ensures ReadOpening(d) == Some(Opening(c, ChunksStart(c), if c == Rf64 then n else 0, 0))
  {
    if c == Rf64 {
      OpeningOfRf64(d, extra, n);
    } else if c == W64 {
      LittleSizes(RiffChunkSize(c, extra, n));
      StartsApart(d);
      hide Little, FromLittle;
      StandsTogether(d, 0, W64_RIFF_ID, 0, 4);
    } else {
      StartsApart(d);
    }
  }

  lemma OpeningOfRf64(d: seq<Byte>, extra: nat, n: nat)
    requires HeadLaid(d, Rf64, extra, n) && |d| >= 48 && n < TWO_TO_THE_64
    ensures ReadOpening(d) == Some(Opening(Rf64, 48, n, 0))
  {
    StartsApart(d);
    LittleSizes(MAX_UINT32);
    hide Little, FromLittle, ReadDs64;
    Ds64Stands(d, n);
  }

  lemma Ds64Stands(d: seq<Byte>, n: nat)
    requires |d| >= 48 && n < TWO_TO_THE_64 && Stands(d, 12, DS64_ID) && Stands(d, 16, Little(28, 4))
    requires Stands(d, 28, Little(n, 8)) && Stands(d, 36, Little(0, 8))
    ensures ReadDs64(d) == Some(Opening(Rf64, 48, n, 0))
  {
    hide Little, FromLittle, ReadHeader;
    LittleSizes(n);
    LittleSizes(0);
    HeaderStands(d, Rf64, 12, DS64_ID, 28);
  }

  /** What the reader can open of what the writer accepts. */
  predicate Readable(fmt: Fmt) {
    Plausible(fmt) && !IsCompressed(fmt.formatTag) && fmt.formatTag != EXTENSIBLE && BytesPerFrame(fmt, fmt.formatTag) > 0
  }

  /** The size the reader takes the data to have: a RIFF file with no room for it in the header is read to its
      end, padding included. */
  function DataSeen(c: Container, n: nat): nat {
    if c == Riff && n >= MAX_UINT32 then n + PaddingRiff(n) else n
  }

  /** What opening a finished file finds. */
  function Expected(c: Container, fmt: Fmt, extra: seq<Byte>, n: nat): Info
    requires Readable(fmt)
  {
    var bpf := BytesPerFrame(fmt, fmt.formatTag);
    var size := WholeFrames(DataSeen(c, n), bpf);
    var start := DataStart(c, fmt, extra);
    Info(c, fmt, fmt.formatTag, start, size, FrameCount(size, bpf), if c == Riff && n >= MAX_UINT32 then start + n + PaddingRiff(n) else start)
  }

  /** The walk over a finished file ends at the data. */
  lemma WalkArrives(d: seq<Byte>, c: Container, fmt: Fmt, extra: seq<Byte>, samples: seq<Byte>, fuel: nat)
    requires c != Rifx && fmt.Valid() && (c == W64 ==> extra == []) && Skippable(extra) && ChunkCount(extra) + 2 <= fuel
    requires Laid(d, c, fmt, extra, samples) && |d| + 24 < TWO_TO_THE_64
    ensures var start := DataStart(c, fmt, extra);
      && ChunksStart(c) <= |d| && start <= |d|
      && WalkChunks(d, c, Progress(ChunksStart(c), ChunksStart(c), false, NO_FMT, 0, 0), fuel)
         == Arrived(Progress(start, start, true, fmt, 0, 0),
                    if c == Rf64 then MAX_UINT32 else if c == W64 then |samples| else DataChunkSize(c, |samples|))
  {
    hide FmtChunk, FmtBytes, Little, DataId, ReadChunk, Skippable, ChunkCount, Stands, HeadLaid;
    var start := ChunksStart(c);
    var p := Progress(start, start, false, NO_FMT, 0, 0);
    FmtChunkStands(d, c, p, fmt);
    var q := p.(pos := start + HeaderBytes(c) + 16, cursor := start + HeaderBytes(c) + 16, foundFmt := true, fmt := fmt);
    assert WalkChunks(d, c, p, fuel) == WalkChunks(d, c, q, fuel - 1);
    PassExtra(d, c, q, extra, fuel - 1);
    var r := q.(pos := q.pos + |extra|, cursor := q.pos + |extra|);
    var size := if c == Rf64 then MAX_UINT32 else if c == W64 then |samples| else DataChunkSize(c, |samples|);
    DataChunkStands(d, c, r, size);
  }

  lemma PassExtra(d: seq<Byte>, c: Container, q: Progress, extra: seq<Byte>, fuel: nat)
    requires c != Rifx && (c == W64 ==> extra == []) && Skippable(extra) && ChunkCount(extra) <= fuel
    requires Stands(d, q.pos, extra) && |d| < TWO_TO_THE_64 && q.cursor == q.pos
    ensures q.pos + |extra| <= |d|
    ensures WalkChunks(d, c, q, fuel) == WalkChunks(d, c, q.(pos := q.pos + |extra|, cursor := q.pos + |extra|), fuel - ChunkCount(extra))
  {
    hide ReadChunk, Skippable, ChunkCount, WalkChunks;
    if c == W64 {
      NothingSkipped();
    } else {
      WalkSkips(d, c, q, extra, fuel);
    }
  }

  /** Opening a finished file, with any metadata made of whole chunks: the header fields, the container and the
      frame count come back, and the data is where the reader looks for it. */
  lemma ParseImage(c: Container, fmt: Fmt, extra: seq<Byte>, samples: seq<Byte>)
    requires c != Rifx && fmt.Valid() && Readable(fmt) && (c == W64 ==> extra == [])
    requires Skippable(extra)
    requires |Image(c, fmt, extra, samples)| + 200 < TWO_TO_THE_64
    ensures var d := Image(c, fmt, extra, samples);
      && Parse(d) == Opened(Expected(c, fmt, extra, |samples|))
      && Stands(d, DataStart(c, fmt, extra), samples)
  {
    var d, n := Image(c, fmt, extra, samples), |samples|;
    ImageLaid(c, fmt, extra, samples);
    hide Image, Stands, HeadLaid, WalkChunks, ReadOpening, FmtChunk, DataId, Little, Skippable, ChunkCount;
    OpeningStands(d, c, |extra|, n);
    CountFits(extra);
    WalkArrives(d, c, fmt, extra, samples, Enough(d));
    Finished(d, c, fmt, extra, n);
  }

  lemma Finished(d: seq<Byte>, c: Container, fmt: Fmt, extra: seq<Byte>, n: nat)
    requires c != Rifx && Readable(fmt) && |d| == DataStart(c, fmt, extra) + n + Padding(c, n)
    ensures var start := DataStart(c, fmt, extra);
      Finish(d, c, Progress(start, start, true, fmt, 0, 0), if c == Riff then DataChunkSize(c, n) else n) == Opened(Expected(c, fmt, extra, n))
  {
    hide WholeFrames, FrameCount, BlockFrames, BytesPerFrame;
  }

  /** When whole frames were written, the file opens at its data with all of it exactly when it is not a RIFF
      file too large for its header. */
  lemma AllDataFound(c: Container, fmt: Fmt, extra: seq<Byte>, n: nat, frames: nat)
    requires Readable(fmt) && n == frames * BytesPerFrame(fmt, fmt.formatTag)
    ensures var info := Expected(c, fmt, extra, n);
      info.pos == info.dataPos && info.dataSize == n && info.totalFrames == frames <==> c != Riff || n < MAX_UINT32
  {
    hide BytesPerFrame;
    var bpf := BytesPerFrame(fmt, fmt.formatTag);
    if c != Riff || n < MAX_UINT32 {
      Powers.DivModUnique(n, bpf, frames, 0);
    }
  }

  /** A frame's size, as the writer and the reader compute it. */
  lemma FrameSizes(fmt: Fmt, frames: nat)
    requires fmt.bitsPerSample % 8 == 0 && Readable(fmt) && frames * fmt.channels * fmt.bitsPerSample < TWO_TO_THE_64
    ensures FrameBytes(fmt, frames) == frames * BytesPerFrame(fmt, fmt.formatTag)
  {
    var k := fmt.bitsPerSample / 8;
    assert fmt.bitsPerSample == 8 * k;
    assert 8 * k * fmt.channels == 8 * (k * fmt.channels);
    var x := frames * fmt.channels;
    assert x * (8 * k) == 8 * (x * k);
    assert x * k == frames * (k * fmt.channels);
  }

  /** One call that writes frames, and the bytes it is given. */
  datatype Write = Write(frames: nat, pData: seq<Byte>)

  predicate AllGiven(fmt: Fmt, writes: seq<Write>) {
    forall w <- writes :: FrameBytes(fmt, w.frames) <= |w.pData|
  }

  function FramesOf(writes: seq<Write>): nat {
    if writes == [] then 0 else FramesOf(writes[..|writes| - 1]) + writes[|writes| - 1].frames
  }

  /** The bytes of all the frames written. */
  function Written(fmt: Fmt, writes: seq<Write>): seq<Byte>
    requires AllGiven(fmt, writes)
  {
    if writes == [] then []
    else
      var last := writes[|writes| - 1];
      Written(fmt, writes[..|writes| - 1]) + last.pData[..FrameBytes(fmt, last.frames)]
  }

  /** The cursor after some reads of a file of `total` frames. */
  function ReadUpTo(asked: seq<nat>, total: nat): nat {
    Min(AskedFor(asked), total)
  }

  /** The frames some reads ask for. */
  function AskedFor(asked: seq<nat>): nat {
    if asked == [] then 0 else AskedFor(asked[..|asked| - 1]) + asked[|asked| - 1]
  }

  function Joined(pieces: seq<seq<Byte>>): seq<Byte> {
    if pieces == [] then [] else Joined(pieces[..|pieces| - 1]) + pieces[|pieces| - 1]
  }

  lemma {:induction false} WrittenSize(fmt: Fmt, writes: seq<Write>)
    requires fmt.bitsPerSample % 8 == 0 && Readable(fmt) && AllGiven(fmt, writes)
    requires FramesOf(writes) * fmt.channels * fmt.bitsPerSample < TWO_TO_THE_64
    ensures |Written(fmt, writes)| == FramesOf(writes) * BytesPerFrame(fmt, fmt.formatTag)
  {
    hide BytesPerFrame, FrameBytes, Readable;
    if writes != [] {
      var front, frames := writes[..|writes| - 1], writes[|writes| - 1].frames;
      var a := FramesOf(front);
      FewerFrames(a, a + frames, fmt.channels, fmt.bitsPerSample);
      FewerFrames(frames, a + frames, fmt.channels, fmt.bitsPerSample);
      WrittenSize(fmt, front);
      FrameSizes(fmt, frames);
      FramesSum(a, frames, BytesPerFrame(fmt, fmt.formatTag));
    }
  }

  lemma FramesSum(a: nat, b: nat, bpf: nat)
    ensures (a + b) * bpf == a * bpf + b * bpf
  {
  }

  lemma FewerFrames(a: nat, b: nat, channels: nat, bits: nat)
    requires a <= b
    ensures a * channels * bits <= b * channels * bits
  {
    WavReader.FrameOrder(a, b, channels);
    WavReader.FrameOrder(a * channels, b * channels, bits);
  }

  /** Writing frames of whole bytes to memory by any number of calls, finishing the file, opening it and reading the
      frames by any number of calls: the same header fields, the same number of frames, and in each piece the bytes
      of the frames it is the turn of. Reads that ask for no fewer frames than were written get all the bytes. */
  method WriteThenRead(format: DataFormat, metadata: seq<Byte>, writes: seq<Write>, asked: seq<nat>)
      returns (info: Info, pieces: seq<seq<Byte>>)
    requires Accepted(format) && Readable(FmtOf(format)) && FmtOf(format).bitsPerSample % 8 == 0
    requires AllGiven(FmtOf(format), writes)
    requires FramesOf(writes) * FmtOf(format).channels * FmtOf(format).bitsPerSample < TWO_TO_THE_64
    requires format.container == Riff ==> |metadata| + 44 <= MAX_INT32
    requires |Written(FmtOf(format), writes)| + |metadata| + 400 < TWO_TO_THE_64
    requires format.container == Riff ==> |Written(FmtOf(format), writes)| < MAX_UINT32
    requires Skippable(metadata)
    ensures info.container == format.container && info.fmt == FmtOf(format) && info.totalFrames == FramesOf(writes)
    ensures var samples, bpf := Written(FmtOf(format), writes), BytesPerFrame(info.fmt, info.fmt.formatTag);
      |samples| == FramesOf(writes) * bpf && pieces == Portions(samples, bpf, asked, FramesOf(writes))
    ensures AskedFor(asked) >= FramesOf(writes) ==> Joined(pieces) == Written(FmtOf(format), writes)
  {
    hide Image, Header, Readable, FrameBytes, Skippable, ChunkCount, Parse, FmtOf, Stands, Expected, AllGiven, Written,
      FramesOf, AskedFor, Joined, Portions, BytesPerFrame, Plausible;
    ghost var fmt := FmtOf(format);
    ghost var extra := if format.container == W64 then [] else metadata;
    ghost var samples := Written(fmt, writes);
    ReadableSizes(fmt);
    var d := WriteFile(format, metadata, writes);
    ImageSize(format.container, fmt, extra, samples);
    NothingSkipped();
    ParseImage(format.container, fmt, extra, samples);
    WrittenSize(fmt, writes);
    AllDataFound(format.container, fmt, extra, |samples|, FramesOf(writes));
    ExpectedFields(format.container, fmt, extra, |samples|);
    info, pieces := ReadFile(d, asked, Expected(format.container, fmt, extra, |samples|), FramesOf(writes), samples);
    PortionsJoin(samples, BytesPerFrame(fmt, fmt.formatTag), asked, FramesOf(writes));
    assert samples[..|samples|] == samples;
  }

  method WriteFile(format: DataFormat, metadata: seq<Byte>, writes: seq<Write>) returns (d: seq<Byte>)
    requires Accepted(format) && FmtOf(format).channels > 0 && FmtOf(format).bitsPerSample > 0
    requires AllGiven(FmtOf(format), writes)
    requires format.container == Riff ==> |metadata| + 44 <= MAX_INT32
    ensures var extra := if format.container == W64 then [] else metadata;
      d == Image(format.container, FmtOf(format), extra, Written(FmtOf(format), writes))
  {
    hide Image, Header, FrameBytes, FmtOf;
    var w := InitWrite(format, metadata);
    var i := 0;
    while i < |writes|
      invariant 0 <= i <= |writes| && w.Valid() && fresh(w) && fresh(w.stream)
      invariant w.samples == Written(w.fmt, writes[..i])
    {
      assert writes[..i + 1][..i] == writes[..i];
      var _ := w.WriteFrames(writes[i].frames, writes[i].pData);
      i := i + 1;
    }
    assert writes[..i] == writes;
    HeaderSize(w.container, w.fmt, w.extra, InitialRiffSize(w.container), InitialDataSize(w.container));
    w.Uninit();
    d := w.stream.data;
  }

  /** What each read is due: the frames from the cursor on, as far as there are any. */
  function Portions(samples: seq<Byte>, bpf: nat, asked: seq<nat>, total: nat): (r: seq<seq<Byte>>)
    requires |samples| == total * bpf
    ensures |r| == |asked|
  {
    if asked == [] then []
    else
      var front := asked[..|asked| - 1];
      WavReader.FrameOrder(ReadUpTo(front, total), ReadUpTo(asked, total), bpf);
      WavReader.FrameOrder(ReadUpTo(asked, total), total, bpf);
      Portions(samples, bpf, front, total) + [samples[ReadUpTo(front, total) * bpf..ReadUpTo(asked, total) * bpf]]
  }

  /** Together the pieces are the frames up to the cursor after the last read. */
  lemma {:induction false} PortionsJoin(samples: seq<Byte>, bpf: nat, asked: seq<nat>, total: nat)
    requires |samples| == total * bpf
    ensures 0 <= ReadUpTo(asked, total) * bpf <= |samples|
    ensures Joined(Portions(samples, bpf, asked, total)) == samples[..ReadUpTo(asked, total) * bpf]
  {
    WavReader.FrameOrder(ReadUpTo(asked, total), total, bpf);
    if asked != [] {
      var front := asked[..|asked| - 1];
      var pieces, a, b := Portions(samples, bpf, front, total), ReadUpTo(front, total) * bpf, ReadUpTo(asked, total) * bpf;
      WavReader.FrameOrder(ReadUpTo(front, total), ReadUpTo(asked, total), bpf);
      PortionsJoin(samples, bpf, front, total);
      hide Joined, AskedFor;
      JoinedOne(samples, a, b, pieces, samples[a..b]);
    }
  }

  lemma JoinedOne(samples: seq<Byte>, a: nat, b: nat, pieces: seq<seq<Byte>>, piece: seq<Byte>)
    requires a <= b <= |samples| && Joined(pieces) == samples[..a] && piece == samples[a..b]
    ensures Joined(pieces + [piece]) == samples[..b]
  {
    assert (pieces + [piece])[..|pieces|] == pieces;
    SliceJoined(samples, a, b);
  }

  method ReadFile(d: seq<Byte>, asked: seq<nat>, ghost expected: Info, ghost total: nat, ghost samples: seq<Byte>)
      returns (info: Info, pieces: seq<seq<Byte>>)
    requires Parse(d) == Opened(expected) && expected.pos == expected.dataPos && expected.totalFrames == total
    requires BytesPerFrame(expected.fmt, expected.translatedFormatTag) > 0 && !IsCompressed(expected.translatedFormatTag)
    requires expected.dataSize == |samples| == total * BytesPerFrame(expected.fmt, expected.translatedFormatTag) < TWO_TO_THE_64
    requires Stands(d, expected.dataPos, samples)
    ensures info == expected
    ensures pieces == Portions(samples, BytesPerFrame(info.fmt, info.translatedFormatTag), asked, total)
  {
    hide BytesPerFrame, Parse, WavReader.Reader.Due;
    var r := new WavReader.Reader(d);
    var outcome := r.Open();
    info := outcome.info;
    ghost var bpf := BytesPerFrame(info.fmt, info.translatedFormatTag);
    Cursors(total, bpf);
    pieces := [];
    var i := 0;
    assert asked[..0] == [];
    while i < |asked|
      invariant 0 <= i <= |asked| && r.Valid() && r.FrameSize() == bpf && fresh(r) && fresh(r.stream) && r.stream.data == d
      invariant r.dataChunkDataPos == expected.dataPos && r.totalPCMFrameCount == total
      invariant r.readCursorInPCMFrames == ReadUpTo(asked[..i], total)
      invariant pieces == Portions(samples, bpf, asked[..i], total)
    {
      ghost var a := r.readCursorInPCMFrames;
      var n, bytes := r.ReadFrames(asked[i]);
      assert asked[..i + 1][..i] == asked[..i];
      ghost var b := r.readCursorInPCMFrames;
      WavReader.FrameOrder(a, b, bpf);
      WavReader.FrameOrder(b, total, bpf);
      StandsTogether(d, expected.dataPos, samples, a * bpf, b * bpf);
      pieces := pieces + [bytes];
      i := i + 1;
    }
    assert asked[..i] == asked;
  }

  lemma Cursors(frames: nat, bpf: nat)
    ensures 0 * bpf == 0 && (frames - 0) * bpf == frames * bpf
  {
  }

  lemma ExpectedFields(c: Container, fmt: Fmt, extra: seq<Byte>, n: nat)
    requires Readable(fmt)
    ensures var i := Expected(c, fmt, extra, n);
      i.container == c && i.fmt == fmt && i.translatedFormatTag == fmt.formatTag && i.dataPos == DataStart(c, fmt, extra)
    ensures !IsCompressed(fmt.formatTag) && BytesPerFrame(fmt, fmt.formatTag) > 0
  {
  }

  lemma NothingSkipped()
    ensures Skippable([]) && ChunkCount([]) == 0
  {
  }

  lemma ReadableSizes(fmt: Fmt)
    requires Readable(fmt)
    ensures fmt.channels > 0 && fmt.bitsPerSample > 0
  {
  }

  lemma ImageSize(c: Container, fmt: Fmt, extra: seq<Byte>, samples: seq<Byte>)
    requires c != Rifx && (c == W64 ==> extra == [])
    ensures |Image(c, fmt, extra, samples)| == DataStart(c, fmt, extra) + |samples| + Padding(c, |samples|)
  {
    HeaderSize(c, fmt, extra, RiffChunkSize(c, |extra|, |samples|), DataChunkSize(c, |samples|));
  }
}
