/** Writing WAV files to memory (core-interface/wav/dr_wav.h: `drwav_init_write__internal`,
    `drwav_write_pcm_frames_le`, `drwav_uninit`, and the growing memory stream), not sequentially: the sizes
    are put into the headers at the end. */
module WavWriter {
  import Powers
  import opened Bytes
  import opened WavFormat

  /** `bytes` written over `data` from `pos` on. */
  function Overwrite(data: seq<Byte>, pos: nat, bytes: seq<Byte>): seq<Byte>
    requires pos <= |data|
  {
    if pos + |bytes| <= |data| then data[..pos] + bytes + data[pos + |bytes|..] else data[..pos] + bytes
  }

  const MAX_INT32 := 0x7FFF_FFFF

  /** Where a seek from the start leaves a stream of `size` bytes: a target beyond the end becomes the end. The
      `int` offset is compared as 32 bits and stored as a `size_t`, here of 64. */
  function SeekTarget(offset: int, size: nat): nat {
    if offset % TWO_TO_THE_32 <= size then offset % TWO_TO_THE_64 else size
  }

  /** The offset of a field `k` bytes before the data, as the writer computes it. */
  function FieldOffset(dataChunkDataPos: nat, k: nat): int {
    ToInt32(dataChunkDataPos % TWO_TO_THE_32) - k
  }

  /** Seeking to a size field finds it exactly when the data starts below 2^31; from there to 2^32 the position
      ends up outside the buffer. The subtraction must not overflow. */
  lemma FieldFound(dataChunkDataPos: nat, k: nat, size: nat)
    requires 0 < k <= dataChunkDataPos <= size < 0x8000_0000_0000_0000
    requires FieldOffset(dataChunkDataPos, k) >= -0x8000_0000
    ensures SeekTarget(FieldOffset(dataChunkDataPos, k), size) == dataChunkDataPos - k <==> dataChunkDataPos <= MAX_INT32
    ensures MAX_INT32 < dataChunkDataPos < TWO_TO_THE_32 ==> SeekTarget(FieldOffset(dataChunkDataPos, k), size) > size
  {
  }

  /** `memoryStreamWrite`. */
  class MemoryStreamWrite {
    var data: seq<Byte>                         // the first dataSize bytes of the buffer
    var capacity: nat
    var pos: nat

    ghost predicate Valid()
      reads this
    {
      pos <= |data| <= capacity
    }

    constructor ()
      ensures Valid() && data == [] && pos == 0
    {
      data, capacity, pos := [], 0, 0;
    }

    /** `drwav__on_write_memory`. */
    method OnWrite(bytes: seq<Byte>) returns (n: nat)
      requires Valid()
      modifies this
      ensures Valid() && n == |bytes| && pos == old(pos) + n
      ensures data == Overwrite(old(data), old(pos), bytes)
    {
      var bytesRemaining := capacity - pos;
      if bytesRemaining < |bytes| {
        var newCapacity := if capacity == 0 then 256 else capacity * 2;
        if newCapacity - pos < |bytes| {
          newCapacity := pos + |bytes|;
        }
        capacity := newCapacity;
      }
      data := Overwrite(data, pos, bytes);
      pos := pos + |bytes|;
      n := |bytes|;
    }

    /** `drwav__on_seek_memory_write`. From the current position, a target outside the data becomes its nearest end. */
    method OnSeek(offset: int, fromStart: bool)
      requires Valid() && -0x8000_0000 <= offset <= MAX_INT32 && (!fromStart ==> offset > -0x8000_0000)
      modifies this`pos
      ensures fromStart ==> pos == SeekTarget(offset, |data|)
      ensures !fromStart ==> pos == if old(pos) + offset < 0 then 0 else Min(old(pos) + offset, |data|)
      ensures !fromStart || offset >= 0 ==> Valid()
      ensures fromStart && offset >= 0 ==> pos == Min(offset, |data|)
    {
      if !fromStart {
        var o := offset;
        if o > 0 {
          if pos + o > |data| {
            o := |data| - pos;                  // too far forward
          }
        } else {
          if pos < -o {
            o := -(pos as int);                 // too far backward
          }
        }
        pos := pos + o;
      } else {
        if offset % TWO_TO_THE_32 <= |data| {
          pos := offset % TWO_TO_THE_64;
        } else {
          pos := |data|;
        }
      }
    }

    /** Writing at the end appends. */
    method Append(bytes: seq<Byte>) returns (n: nat)
      requires Valid() && pos == |data|
      modifies this
      ensures Valid() && pos == |data| && data == old(data) + bytes && n == |bytes|
    {
      n := OnWrite(bytes);
    }

    /** Writing inside the data keeps what is around it. */
    method Patch(at: int, bytes: seq<Byte>, ghost before: seq<Byte>, ghost old_: seq<Byte>, ghost after: seq<Byte>)
      requires at <= MAX_INT32 && Valid() && data == before + old_ + after && at == |before| && |old_| == |bytes|
      modifies this
      ensures Valid() && data == before + bytes + after
    {
      OnSeek(at, true);
      var _ := OnWrite(bytes);
    }
  }

  /** `drwav_preinit_write`: the formats that can be written, and the header they get. */
  predicate Accepted(format: DataFormat) {
    format.format != EXTENSIBLE && format.format != ADPCM && format.format != DVI_ADPCM && format.container != Rifx
  }

  function FmtOf(format: DataFormat): (fmt: Fmt)
    ensures fmt.Valid()
  {
    Fmt(format.format % 0x1_0000, format.channels % 0x1_0000, format.sampleRate % TWO_TO_THE_32,
        format.bitsPerSample * format.sampleRate * format.channels % TWO_TO_THE_32 / 8,
        format.channels * format.bitsPerSample % TWO_TO_THE_32 / 8 % 0x1_0000, format.bitsPerSample % 0x1_0000)
  }

  // The file as a whole. Its two sizes are in `Size` fields between fixed parts.

  function SizeField(c: Container, x: nat): seq<Byte> {
    Little(x, if c == Riff || c == Rifx then 4 else 8)
  }

  function BeforeRiffSize(c: Container): (r: seq<Byte>)
    ensures |r| == if c == W64 then 16 else if c == Rf64 then 20 else 4
  {
    match c
    case W64 => W64_RIFF_ID
    case Rf64 => RF64_ID + Little(MAX_UINT32, 4) + WAVE_ID + DS64_ID + Little(28, 4)
    case _ => RIFF_ID
  }

  function FmtChunk(c: Container, fmt: Fmt): (r: seq<Byte>)
    ensures |r| == if c == W64 then 40 else 24
  {
    FmtId(c) + (if c == W64 then Little(40, 8) else Little(16, 4)) + FmtBytes(fmt)
  }

  /** The "fmt " chunk, the metadata chunks and the identifier of the "data" chunk. */
  function Chunks(c: Container, fmt: Fmt, extra: seq<Byte>): (r: seq<Byte>)
    ensures |r| == |extra| + if c == W64 then 56 else 28
  {
    FmtChunk(c, fmt) + extra + DataId(c)
  }

  function BetweenSizes(c: Container, fmt: Fmt, extra: seq<Byte>): (r: seq<Byte>)
    ensures |r| == if c == W64 then 72 + |extra| else if c == Rf64 then 0 else 32 + |extra|
  {
    match c
    case W64 => W64_WAVE_ID + Chunks(c, fmt, extra)
    case Rf64 => []
    case _ => WAVE_ID + Chunks(c, fmt, extra)
  }

  function AfterDataSize(c: Container, fmt: Fmt, extra: seq<Byte>): seq<Byte> {
    if c == Rf64 then Little(0, 8) + Little(0, 4) + Chunks(c, fmt, extra) + Little(MAX_UINT32, 4) else []
  }

  function Header(c: Container, fmt: Fmt, extra: seq<Byte>, riffSize: nat, dataSize: nat): seq<Byte> {
    BeforeRiffSize(c) + SizeField(c, riffSize) + BetweenSizes(c, fmt, extra) + SizeField(c, dataSize) + AfterDataSize(c, fmt, extra)
  }

  /** The order in which the writer emits the header of a new file. */
  function Front(c: Container): seq<Byte> {
    BeforeRiffSize(c) + SizeField(c, InitialRiffSize(c))
    + if c == W64 then W64_WAVE_ID else if c == Rf64 then SizeField(c, 0) + Little(0, 8) + Little(0, 4) else WAVE_ID
  }

  function DataHeader(c: Container): seq<Byte> {
    DataId(c) + if c == W64 then Little(24, 8) else if c == Rf64 then Little(MAX_UINT32, 4) else Little(0, 4)
  }

  lemma HeaderInOrder(c: Container, fmt: Fmt, extra: seq<Byte>)
    ensures Front(c) + (FmtChunk(c, fmt) + (extra + DataHeader(c))) == Header(c, fmt, extra, InitialRiffSize(c), InitialDataSize(c))
  {
    hide Little, FmtChunk, DataId;
    var f, d := FmtChunk(c, fmt), DataId(c);
    match c
    case Rf64 =>
      ReorderRf64(BeforeRiffSize(c), SizeField(c, 36), SizeField(c, 0), Little(0, 8), Little(0, 4), f, extra, d, Little(MAX_UINT32, 4));
    case W64 =>
      Reorder(BeforeRiffSize(c), SizeField(c, 104), W64_WAVE_ID, f, extra, d, Little(24, 8));
    case _ =>
      Reorder(BeforeRiffSize(c), SizeField(c, 28), WAVE_ID, f, extra, d, Little(0, 4));
  }

  lemma FrontOfRf64(a: seq<Byte>, b: seq<Byte>, c: seq<Byte>, d: seq<Byte>, e: seq<Byte>, f: seq<Byte>, g: seq<Byte>, h: seq<Byte>)
    ensures a + b + c + d + e + f + g + g + h == a + b + c + d + e + f + (g + g + h)
  {
    assert g + g + h == g + (g + h);
  }

  lemma Reassociate(a: seq<Byte>, b: seq<Byte>, c: seq<Byte>, d: seq<Byte>)
    ensures a + b + c + d == a + (b + (c + d))
    ensures a + b == a + b + []
  {
  }

  lemma Reorder(a: seq<Byte>, s: seq<Byte>, w: seq<Byte>, f: seq<Byte>, e: seq<Byte>, d: seq<Byte>, z: seq<Byte>)
    ensures a + s + w + (f + (e + (d + z))) == a + s + (w + (f + e + d)) + z + []
  {
    var x := f + e + d;
    assert f + (e + (d + z)) == x + z;
    assert a + s + w + (x + z) == a + s + (w + x) + z;
  }

  lemma ReorderRf64(a: seq<Byte>, s: seq<Byte>, t: seq<Byte>, u: seq<Byte>, v: seq<Byte>,
                    f: seq<Byte>, e: seq<Byte>, d: seq<Byte>, z: seq<Byte>)
    ensures a + s + (t + u + v) + (f + (e + (d + z))) == a + s + [] + t + (u + v + (f + e + d) + z)
  {
    var x := f + e + d;
    assert f + (e + (d + z)) == x + z;
    var y := u + v;
    assert t + u + v == t + y;
    assert a + s + (t + y) + (x + z) == a + s + [] + t + (y + x + z);
  }

  function Zeros(n: nat): (r: seq<Byte>)
    ensures |r| == n
  {
    seq(n, _ => 0)
  }

  /** A finished file with the metadata chunks `extra` and the data `samples`. W64 files get no metadata. */
  function Image(c: Container, fmt: Fmt, extra: seq<Byte>, samples: seq<Byte>): seq<Byte> {
    var n := |samples|;
    Header(c, fmt, extra, RiffChunkSize(c, |extra|, n), DataChunkSize(c, n)) + samples + Zeros(Padding(c, n))
  }

  /** The sizes in the header of a file still being written. */
  function InitialRiffSize(c: Container): nat {
    match c
    case W64 => 80 + 24
    case Rf64 => 8 + 28
    case _ => 28
  }

  function InitialDataSize(c: Container): nat {
    if c == W64 then 24 else 0
  }

  /** Where the two sizes are. */
  lemma HeaderLayout(c: Container, fmt: Fmt, extra: seq<Byte>)
    requires c != Rifx
    ensures |BeforeRiffSize(c)| == if c == Riff then 4 else if c == W64 then 16 else 20
    ensures forall x, y :: |SizeField(c, x)| == |SizeField(c, y)|
    ensures var p := |BeforeRiffSize(c)| + |SizeField(c, InitialRiffSize(c))| + |BetweenSizes(c, fmt, extra)|;
      p == if c == Rf64 then 28 else |Header(c, fmt, extra, InitialRiffSize(c), InitialDataSize(c))| - if c == W64 then 8 else 4
  {
  }

  lemma Tail(a: seq<Byte>, r: seq<Byte>, b: seq<Byte>, d: seq<Byte>, e: seq<Byte>, samples: seq<Byte>, pad: seq<Byte>)
    ensures a + r + b + d + e + samples + pad == a + r + (b + (d + (e + samples + pad)))
  {
    var t := e + samples + pad;
    assert a + r + b + d + e + samples + pad == a + r + b + d + t;
    assert a + r + b + d + t == a + r + (b + (d + t));
  }

  lemma Middle(a: seq<Byte>, r: seq<Byte>, b: seq<Byte>, d: seq<Byte>, t: seq<Byte>)
    ensures a + r + (b + (d + t)) == a + r + b + d + t
  {
  }

  /** The bytes of `frames` frames; the product has 64 bits. */
  function FrameBytes(fmt: Fmt, frames: nat): nat {
    frames * fmt.channels * fmt.bitsPerSample % TWO_TO_THE_64 / 8
  }

  /** The whole frames in `bytes` bytes. */
  function FramesIn(fmt: Fmt, bytes: nat): nat
    requires fmt.bitsPerSample > 0 && fmt.channels > 0
  {
    Powers.DivModFacts(bytes * 8, fmt.bitsPerSample);
    Powers.DivModFacts(bytes * 8 / fmt.bitsPerSample, fmt.channels);
    bytes * 8 / fmt.bitsPerSample / fmt.channels
  }

  /** Every frame counts when samples are whole bytes. */
  lemma AllFramesWritten(fmt: Fmt, frames: nat)
    requires fmt.bitsPerSample > 0 && fmt.channels > 0 && fmt.bitsPerSample % 8 == 0
    requires frames * fmt.channels * fmt.bitsPerSample < TWO_TO_THE_64
    ensures FramesIn(fmt, FrameBytes(fmt, frames)) == frames
  {
    var k := fmt.bitsPerSample / 8;
    var m := frames * fmt.channels;
    assert m * fmt.bitsPerSample == m * k * 8;
    assert FrameBytes(fmt, frames) == m * k;
    assert m * k * 8 == m * fmt.bitsPerSample;
    Powers.DivModUnique(m * k * 8, fmt.bitsPerSample, m, 0);
    Powers.DivModUnique(m, fmt.channels, frames, 0);
  }

  lemma SliceJoined(s: seq<Byte>, i: nat, j: nat)
    requires i <= j <= |s|
    ensures s[..i] + s[i..j] == s[..j]
  {
  }

  lemma NoFrames(fmt: Fmt)
    ensures FrameBytes(fmt, 0) == 0
    ensures fmt.bitsPerSample > 0 && fmt.channels > 0 ==> FramesIn(fmt, 0) == 0
  {
  }

  /** A `drwav` open for writing. */
  class Writer {
    const stream: MemoryStreamWrite
    const container: Container
    const fmt: Fmt
    const extra: seq<Byte>                      // what writing the metadata appends
    var dataChunkDataSize: nat
    var dataChunkDataPos: nat
    ghost var samples: seq<Byte>

    /** A header with its initial sizes, then the data written so far. */
    ghost predicate Valid()
      reads this, stream
    {
      && stream.Valid() && stream.pos == |stream.data| && dataChunkDataSize == |samples|
      && container != Rifx && fmt.Valid()
      && dataChunkDataPos == |Header(container, fmt, extra, InitialRiffSize(container), InitialDataSize(container))|
      && stream.data == Header(container, fmt, extra, InitialRiffSize(container), InitialDataSize(container)) + samples
    }

    /** `drwav_init_write__internal`. Metadata is only written to RIFF and RF64 files. */
    constructor (format: DataFormat, metadata: seq<Byte>)
      requires Accepted(format)
      ensures Valid() && fresh(stream) && samples == []
      ensures stream.data == Header(container, fmt, extra, InitialRiffSize(container), InitialDataSize(container))
      ensures container == format.container && fmt == FmtOf(format) && extra == if container == W64 then [] else metadata
    {
      container := format.container;
      fmt := FmtOf(format);
      extra := if format.container == W64 then [] else metadata;
      samples, dataChunkDataSize, dataChunkDataPos := [], 0, 0;
      var s := new MemoryStreamWrite();
      stream := s;
      new;
      WriteHeader();
    }

    /** The header of a new file. */
    method WriteHeader()
      requires stream.Valid() && stream.data == [] && stream.pos == 0 && container != Rifx
      modifies this, stream
      ensures stream.Valid() && stream.pos == |stream.data| == dataChunkDataPos
      ensures stream.data == Header(container, fmt, extra, InitialRiffSize(container), InitialDataSize(container))
      ensures samples == old(samples) && dataChunkDataSize == old(dataChunkDataSize)
    {
      hide Front, FmtChunk, DataHeader, Header;
      var runningPos := WriteFront();
      var n := WriteFmtChunk();
      runningPos := runningPos + n;
      if extra != [] {
        n := stream.Append(extra);
        runningPos := runningPos + n;
      }
      n := WriteDataHeader();
      runningPos := runningPos + n;
      dataChunkDataPos := runningPos;
      Reassociate(Front(container), FmtChunk(container, fmt), extra, DataHeader(container));
      HeaderInOrder(container, fmt, extra);
    }

    method WriteFront() returns (count: nat)
      requires stream.Valid() && stream.data == [] && stream.pos == 0 && container != Rifx
      modifies stream
      ensures stream.Valid() && stream.pos == |stream.data| && count == |stream.data|
      ensures stream.data == Front(container)
    {
      hide Little;
      count := 0;
      var n;
      if container == Riff {
        count := WriteStart(RIFF_ID, Little(28, 4), WAVE_ID);
      } else if container == W64 {
        count := WriteStart(W64_RIFF_ID, Little(80 + 24, 8), W64_WAVE_ID);
      } else {
        count := WriteStart(RF64_ID, Little(MAX_UINT32, 4), WAVE_ID);
        n := WriteDs64();
        count := count + n;
        FrontOfRf64(RF64_ID, Little(MAX_UINT32, 4), WAVE_ID, DS64_ID, Little(28, 4), Little(8 + 28, 8), Little(0, 8), Little(0, 4));
      }
    }

    /** The identifier, size and type a container begins with. */
    method WriteStart(id: seq<Byte>, size: seq<Byte>, kind: seq<Byte>) returns (count: nat)
      requires stream.Valid() && stream.data == [] && stream.pos == 0
      modifies stream
      ensures stream.Valid() && stream.pos == |stream.data| == count && stream.data == id + size + kind
    {
      var n := stream.Append(id);
      count := n;
      n := stream.Append(size);
      count := count + n;
      n := stream.Append(kind);
      count := count + n;
    }

    method WriteDs64() returns (count: nat)
      requires stream.Valid() && stream.pos == |stream.data|
      modifies stream
      ensures stream.Valid() && stream.pos == |stream.data| && |stream.data| == old(|stream.data|) + count
      ensures stream.data == old(stream.data) + DS64_ID + Little(28, 4) + Little(8 + 28, 8) + Little(0, 8) + Little(0, 8) + Little(0, 4)
    {
      hide Little;
      var n := stream.Append(DS64_ID);
      count := n;
      n := stream.Append(Little(28, 4));
      count := count + n;
      n := stream.Append(Little(8 + 28, 8));
      count := count + n;
      n := stream.Append(Little(0, 8));
      count := count + n;
      n := stream.Append(Little(0, 8));
      count := count + n;
      n := stream.Append(Little(0, 4));
      count := count + n;
    }

    method WriteFmtChunk() returns (count: nat)
      requires stream.Valid() && stream.pos == |stream.data|
      modifies stream
      ensures stream.Valid() && stream.pos == |stream.data| && |stream.data| == old(|stream.data|) + count
      ensures stream.data == old(stream.data) + FmtChunk(container, fmt)
    {
      hide Little, FmtBytes;
      var n;
      if container == W64 {
        n := stream.Append(W64_FMT_ID);
        count := n;
        n := stream.Append(Little(40, 8));
        count := count + n;
      } else {
        n := stream.Append(FMT_ID);
        count := n;
        n := stream.Append(Little(16, 4));
        count := count + n;
      }
      n := WriteFmt();
      count := count + n;
    }

    method WriteDataHeader() returns (count: nat)
      requires stream.Valid() && stream.pos == |stream.data| && container != Rifx
      modifies stream
      ensures stream.Valid() && stream.pos == |stream.data| && |stream.data| == old(|stream.data|) + count
      ensures stream.data == old(stream.data) + DataHeader(container)
    {
      hide Little;
      var n;
      if container == Riff {
        n := stream.Append(DATA_ID);
        count := n;
        n := stream.Append(Little(0, 4));
        count := count + n;
      } else if container == W64 {
        n := stream.Append(W64_DATA_ID);
        count := n;
        n := stream.Append(Little(24, 8));
        count := count + n;
      } else {
        n := stream.Append(DATA_ID);
        count := n;
        n := stream.Append(Little(MAX_UINT32, 4));
        count := count + n;
      }
    }

    method WriteFmt() returns (count: nat)
      requires stream.Valid() && stream.pos == |stream.data|
      modifies stream
      ensures stream.Valid() && stream.pos == |stream.data| && count == 16
      ensures stream.data == old(stream.data) + FmtBytes(fmt)
    {
      hide Little;
      count := 0;
      var n := stream.Append(Little(fmt.formatTag, 2));
      count := count + n;
      n := stream.Append(Little(fmt.channels, 2));
      count := count + n;
      n := stream.Append(Little(fmt.sampleRate, 4));
      count := count + n;
      n := stream.Append(Little(fmt.avgBytesPerSec, 4));
      count := count + n;
      n := stream.Append(Little(fmt.blockAlign, 2));
      count := count + n;
      n := stream.Append(Little(fmt.bitsPerSample, 2));
      count := count + n;
    }

    /** `drwav_write_raw`. */
    method WriteRaw(bytes: seq<Byte>) returns (n: nat)
      requires Valid()
      modifies this, stream
      ensures Valid() && n == |bytes| && samples == old(samples) + bytes
    {
      hide Header;
      if |bytes| == 0 {
        return 0;
      }
      n := stream.Append(bytes);
      dataChunkDataSize := dataChunkDataSize + n;
      samples := samples + bytes;
    }

    /** `drwav_write_pcm_frames_le`: the bytes of the frames go to the end of the data. */
    method WriteFrames(frames: nat, pData: seq<Byte>) returns (written: nat)
      requires Valid() && fmt.channels > 0 && fmt.bitsPerSample > 0 && FrameBytes(fmt, frames) <= |pData|
      modifies this, stream
      ensures Valid() && samples == old(samples) + pData[..FrameBytes(fmt, frames)]
      ensures written == FramesIn(fmt, FrameBytes(fmt, frames))
    {
      hide FrameBytes, FramesIn, Header;
      NoFrames(fmt);
      if frames == 0 {
        assert pData[..0] == [];
        return 0;
      }
      var bytesToWrite := FrameBytes(fmt, frames);
      var bytesWritten := 0;
      ghost var total := bytesToWrite;
      while bytesToWrite > 0
        invariant Valid() && 0 <= bytesToWrite && bytesWritten + bytesToWrite == total && 0 <= bytesWritten
        invariant samples == old(samples) + pData[..bytesWritten]
      {
        SliceJoined(pData, bytesWritten, total);
        var bytesJustWritten := WriteRaw(pData[bytesWritten..bytesWritten + bytesToWrite]);
        if bytesJustWritten == 0 {
          break;
        }
        bytesToWrite := bytesToWrite - bytesJustWritten;
        bytesWritten := bytesWritten + bytesJustWritten;
      }
      written := FramesIn(fmt, bytesWritten);
    }

    /** `drwav_uninit` for a writer: the padding, and the sizes into the header. */
    method Uninit()
      requires Valid() && (container != Rf64 ==> dataChunkDataPos <= MAX_INT32)
      modifies stream
      ensures stream.data == Image(container, fmt, extra, samples)
    {
      ghost var c, pad := container, Zeros(Padding(container, |samples|));
      ghost var h := Header(c, fmt, extra, InitialRiffSize(c), InitialDataSize(c));
      var paddingSize := if container == Riff || container == Rf64 then PaddingRiff(dataChunkDataSize) else PaddingW64(dataChunkDataSize);
      if paddingSize > 0 {
        var _ := stream.Append(Zeros(paddingSize));
      }
      assert stream.data == h + samples + pad;
      HeaderLayout(c, fmt, extra);
      var riffSize, dataSize := RiffChunkSize(container, |extra|, dataChunkDataSize), DataChunkSize(container, dataChunkDataSize);
      PatchSizes(riffSize, dataSize, samples, pad);
    }

    /** The two sizes written over the initial ones. */
    method PatchSizes(riffSize: nat, dataSize: nat, ghost samples: seq<Byte>, ghost pad: seq<Byte>)
      requires stream.Valid() && container != Rifx
      requires stream.data == Header(container, fmt, extra, InitialRiffSize(container), InitialDataSize(container)) + samples + pad
      requires dataChunkDataPos == |Header(container, fmt, extra, InitialRiffSize(container), InitialDataSize(container))|
      requires container != Rf64 ==> dataChunkDataPos <= MAX_INT32
      modifies stream
      ensures stream.data == Header(container, fmt, extra, riffSize, dataSize) + samples + pad
    {
      hide BeforeRiffSize, SizeField, BetweenSizes, AfterDataSize, Little;
      ghost var c := container;
      ghost var a, r0, b, d0, e := BeforeRiffSize(c), SizeField(c, InitialRiffSize(c)), BetweenSizes(c, fmt, extra),
        SizeField(c, InitialDataSize(c)), AfterDataSize(c, fmt, extra);
      ghost var r, d := SizeField(c, riffSize), SizeField(c, dataSize);
      HeaderLayout(c, fmt, extra);
      var riffPos, dataPos;
      if container == Riff {
        riffPos, dataPos := 4, FieldOffset(dataChunkDataPos, 4);
      } else if container == W64 {
        riffPos, dataPos := 16, FieldOffset(dataChunkDataPos, 8);
      } else {
        riffPos, dataPos := 12 + 8, 12 + 8 + 8;
      }
      Tail(a, r0, b, d0, e, samples, pad);
      stream.Patch(riffPos, SizeField(container, riffSize), a, r0, b + (d0 + (e + samples + pad)));
      Middle(a, r, b, d0, e + samples + pad);
      stream.Patch(dataPos, SizeField(container, dataSize), a + r + b, d0, e + samples + pad);
      Tail(a, r, b, d, e, samples, pad);
      Middle(a, r, b, d, e + samples + pad);
    }
  }

  /** Opening a file for writing. There is no writer for a format that cannot be written. */
  method InitWrite(format: DataFormat, metadata: seq<Byte>) returns (pWav: Writer?)
    ensures pWav != null <==> Accepted(format)
    ensures pWav != null <==> format.format !in {0x0002, 0x0011, 0xFFFE} && format.container in {Riff, W64, Rf64}
    ensures pWav != null ==> fresh(pWav) && pWav.Valid() && fresh(pWav.stream) && pWav.samples == []
    ensures pWav != null ==> pWav.container == format.container && pWav.fmt == FmtOf(format)
    ensures pWav != null ==> pWav.extra == if format.container == W64 then [] else metadata
  {
    if format.format == EXTENSIBLE {
      return null;
    }
    if format.format == ADPCM || format.format == DVI_ADPCM {
      return null;
    }
    if format.container == Rifx {
      return null;                              // not supported for writing
    }
    pWav := new Writer(format, metadata);
  }
}
