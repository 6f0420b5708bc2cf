/** What stands in the header of a finished file, field by field and at fixed offsets (core-interface/wav/dr_wav.h;
    RIFF/WAVE: chapters 2 and 3 of Multimedia Programming Interface and Data Specifications 1.0). */
module WavHeader {
  import opened Bytes
  import opened WavFormat
  import opened WavParser
  import opened WavWriter
  import opened WavRoundTrip

  /** The number stored in `n` bytes at `pos`, little-endian. */
  function NumberAt(d: seq<Byte>, pos: nat, n: nat): nat
    requires pos + n <= |d|
  {
    FromLittle(d[pos..pos + n])
  }

  lemma NumberStands(d: seq<Byte>, pos: nat, x: nat, n: nat)
    requires Stands(d, pos, Little(x, n)) && (n == 2 || n == 4 || n == 8)
    requires x < if n == 2 then 0x1_0000 else if n == 4 then TWO_TO_THE_32 else TWO_TO_THE_64
    ensures NumberAt(d, pos, n) == x
  {
    hide Little, FromLittle;
    LittleSizes(x);
  }

  /** The size of the file as its header tells it, and the size of its data. A RIFF file counts what follows the size
      field, as far as 32 bits go; an RF64 file does so too, in its "ds64" chunk; a W64 file counts all of itself. The
      data is counted without padding, which makes it a multiple of two bytes in RIFF and RF64 files, and in a W64 file
      with its chunk's header. */
  lemma SizesTold(c: Container, fmt: Fmt, extra: seq<Byte>, samples: seq<Byte>)
    requires c != Rifx && (c == W64 ==> extra == []) && |Image(c, fmt, extra, samples)| < TWO_TO_THE_64
    ensures var d := Image(c, fmt, extra, samples);
      && |d| == (if c == W64 then 104 + |samples| + |samples| % 8
                 else (if c == Rf64 then 80 else 44) + |extra| + |samples| + |samples| % 2)
      && (c == Riff ==>
            && NumberAt(d, 4, 4) == (if |d| - 8 <= MAX_UINT32 then |d| - 8 else MAX_UINT32)
            && NumberAt(d, 40 + |extra|, 4) == (if |samples| <= MAX_UINT32 then |samples| else MAX_UINT32))
      && (c == W64 ==> NumberAt(d, 16, 8) == |d| && NumberAt(d, 96, 8) == |samples| + 24)
      && (c == Rf64 ==>
            && NumberAt(d, 20, 8) == (if |d| - 8 <= MAX_UINT32 then |d| - 8 else MAX_UINT32)
            && NumberAt(d, 28, 8) == |samples| && NumberAt(d, 36, 8) == 0
            && NumberAt(d, 4, 4) == MAX_UINT32 && NumberAt(d, 76 + |extra|, 4) == MAX_UINT32)
  {
    hide Image, Stands, Header, Little, FromLittle, FmtChunk, FmtBytes, Chunks, DataId;
    var d, n := Image(c, fmt, extra, samples), |samples|;
    ImageLaid(c, fmt, extra, samples);
    ImageSize(c, fmt, extra, samples);
    RiffSizeStands(c, fmt, extra, samples);
    if c == Riff {
      NumberStands(d, 4, RiffChunkSize(c, |extra|, n), 4);
      NumberStands(d, 40 + |extra|, DataChunkSize(c, n), 4);
    } else if c == W64 {
      NumberStands(d, 16, RiffChunkSize(c, |extra|, n), 8);
      NumberStands(d, 96, DataChunkSize(c, n), 8);
    } else {
      NumberStands(d, 20, RiffChunkSize(c, |extra|, n), 8);
      NumberStands(d, 28, n, 8);
      NumberStands(d, 36, 0, 8);
      NumberStands(d, 4, MAX_UINT32, 4);
      NumberStands(d, 76 + |extra|, MAX_UINT32, 4);
    }
  }

  lemma RiffSizeStands(c: Container, fmt: Fmt, extra: seq<Byte>, samples: seq<Byte>)
    requires c != Rifx
    ensures var pos, n := (if c == W64 then 16 else if c == Rf64 then 20 else 4), if c == Riff then 4 else 8;
      Stands(Image(c, fmt, extra, samples), pos, Little(RiffChunkSize(c, |extra|, |samples|), n))
  {
    hide Stands, Header, Little, BetweenSizes, AfterDataSize, RiffChunkSize, DataChunkSize, FmtChunk, FmtBytes, DataId, Chunks;
    var d, n := Image(c, fmt, extra, samples), |samples|;
    var h := Header(c, fmt, extra, RiffChunkSize(c, |extra|, n), DataChunkSize(c, n));
    StandsWhole(d);
    StandsApart(d, 0, h + samples, Zeros(Padding(c, n)));
    StandsApart(d, 0, h, samples);
    HeaderParts(d, c, fmt, extra, RiffChunkSize(c, |extra|, n), DataChunkSize(c, n));
  }

  /** Where the body of the "fmt " chunk starts. */
  function FmtPos(c: Container): nat {
    if c == W64 then 64 else if c == Rf64 then 56 else 20
  }

  lemma FmtFieldsStand(d: seq<Byte>, q: nat, fmt: Fmt)
    requires Stands(d, q, FmtBytes(fmt)) && fmt.Valid()
    ensures q + 16 <= |d|
    ensures NumberAt(d, q, 2) == fmt.formatTag && NumberAt(d, q + 2, 2) == fmt.channels && NumberAt(d, q + 4, 4) == fmt.sampleRate
    ensures NumberAt(d, q + 8, 4) == fmt.avgBytesPerSec && NumberAt(d, q + 12, 2) == fmt.blockAlign
    ensures NumberAt(d, q + 14, 2) == fmt.bitsPerSample
  {
    hide Little, FromLittle;
    assert q + 16 <= |d|;
    hide Stands;
    var a, b, r, v, l, s := Little(fmt.formatTag, 2), Little(fmt.channels, 2), Little(fmt.sampleRate, 4),
      Little(fmt.avgBytesPerSec, 4), Little(fmt.blockAlign, 2), Little(fmt.bitsPerSample, 2);
    StandsApart(d, q, a + b + r + v + l, s);
    StandsApart(d, q, a + b + r + v, l);
    StandsApart(d, q, a + b + r, v);
    StandsApart(d, q, a + b, r);
    StandsApart(d, q, a, b);
    NumberStands(d, q, fmt.formatTag, 2);
    NumberStands(d, q + 2, fmt.channels, 2);
    NumberStands(d, q + 4, fmt.sampleRate, 4);
    NumberStands(d, q + 8, fmt.avgBytesPerSec, 4);
    NumberStands(d, q + 12, fmt.blockAlign, 2);
    NumberStands(d, q + 14, fmt.bitsPerSample, 2);
  }

  /** The format as the file tells it: what was asked for, a frame's bytes, and a second's. */
  lemma FormatTold(format: DataFormat, extra: seq<Byte>, samples: seq<Byte>)
    requires format.container != Rifx && (format.container == W64 ==> extra == [])
    requires format.format < 0x1_0000 && format.channels < 0x1_0000 && format.sampleRate < TWO_TO_THE_32
    requires format.bitsPerSample < 0x1_0000
    requires format.channels * format.bitsPerSample < 0x8_0000
    requires format.sampleRate * (format.channels * format.bitsPerSample) < TWO_TO_THE_32
    ensures var d, q := Image(format.container, FmtOf(format), extra, samples), FmtPos(format.container);
      && q + 16 <= |d|
      && NumberAt(d, q, 2) == format.format && NumberAt(d, q + 2, 2) == format.channels
      && NumberAt(d, q + 4, 4) == format.sampleRate && NumberAt(d, q + 14, 2) == format.bitsPerSample
      && NumberAt(d, q + 12, 2) == format.channels * format.bitsPerSample / 8
      && NumberAt(d, q + 8, 4) == format.sampleRate * (format.channels * format.bitsPerSample) / 8
      && (format.bitsPerSample % 8 == 0 ==>
            && 8 * NumberAt(d, q + 12, 2) == format.channels * format.bitsPerSample
            && NumberAt(d, q + 8, 4) == format.sampleRate * NumberAt(d, q + 12, 2))
  {
    hide NumberAt, Image, Stands, Header, Little, FromLittle, FmtBytes, Chunks, DataId, DataChunkSize, RiffChunkSize;
    var c, fmt := format.container, FmtOf(format);
    var d := Image(c, fmt, extra, samples);
    FmtStands(d, c, fmt, extra, samples);
    FmtFieldsStand(d, FmtPos(c), fmt);
    FrameAndSecond(format.sampleRate, format.channels, format.bitsPerSample);
  }

  lemma FmtStands(d: seq<Byte>, c: Container, fmt: Fmt, extra: seq<Byte>, samples: seq<Byte>)
    requires c != Rifx && (c == W64 ==> extra == []) && d == Image(c, fmt, extra, samples)
    ensures Stands(d, FmtPos(c), FmtBytes(fmt))
  {
    hide Image, Stands, Header, Little, FmtBytes, Chunks, DataId, DataChunkSize, RiffChunkSize, HeadLaid, ReadHeader;
    ImageLaid(c, fmt, extra, samples);
    FmtHeaderStands(d, c, ChunksStart(c), fmt);
  }

  lemma FrameAndSecond(rate: nat, channels: nat, bits: nat)
    requires channels * bits < 0x8_0000 && rate * (channels * bits) < TWO_TO_THE_32
    ensures var frame, second := channels * bits % TWO_TO_THE_32 / 8 % 0x1_0000, bits * rate * channels % TWO_TO_THE_32 / 8;
      && frame == channels * bits / 8 && second == rate * (channels * bits) / 8
      && (bits % 8 == 0 ==> 8 * frame == channels * bits && second == rate * frame)
  {
    Reordered(rate, channels, bits);
    Fits(channels * bits, 0x8_0000);
    Fits(rate * (channels * bits), TWO_TO_THE_32);
    if bits % 8 == 0 {
      WholeBytes(rate, channels, bits / 8);
    }
  }

  lemma Reordered(rate: nat, channels: nat, bits: nat)
    ensures bits * rate * channels == rate * (channels * bits) >= 0 && channels * bits >= 0
  {
    assert bits * rate * channels == rate * (channels * bits);
  }

  lemma Fits(x: nat, bound: nat)
    requires x < bound <= TWO_TO_THE_32
    ensures x % TWO_TO_THE_32 == x && (bound <= 0x8_0000 ==> x / 8 % 0x1_0000 == x / 8)
  {
  }

  lemma WholeBytes(rate: nat, channels: nat, k: nat)
    ensures channels * (8 * k) / 8 == channels * k && channels * (8 * k) == 8 * (channels * k)
    ensures rate * (channels * (8 * k)) / 8 == rate * (channels * k)
  {
    var x := channels * k;
    assert channels * (8 * k) == 8 * x;
    assert rate * (8 * x) == 8 * (rate * x);
  }
}
