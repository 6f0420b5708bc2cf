/** Opening WAV files and reading their frames (core-interface/wav/dr_wav.h: `drwav_init__internal`,
    `drwav__read_chunk_header`, `drwav_read_pcm_frames_le`) from a memory stream. */
module WavReader {
  import Powers
  import opened Bytes
  import opened WavFormat
  import opened WavParser

  /** `drwav__seek_forward`. */
  method SeekForward(stream: MemoryStream, offset: nat) returns (ok: bool)
    requires stream.Valid()
    modifies stream`pos
    ensures stream.Valid() && (ok <==> old(stream.pos) + offset <= |stream.data|)
    ensures ok ==> stream.pos == old(stream.pos) + offset
  {
    var bytesRemainingToSeek := offset;
    while bytesRemainingToSeek > 0
      invariant stream.Valid() && 0 <= bytesRemainingToSeek && stream.pos + bytesRemainingToSeek == old(stream.pos) + offset
    {
      if bytesRemainingToSeek > 0x7FFF_FFFF {
        var seeked := stream.OnSeek(0x7FFF_FFFF, false);
        if !seeked {
          return false;
        }
        bytesRemainingToSeek := bytesRemainingToSeek - 0x7FFF_FFFF;
      } else {
        var seeked := stream.OnSeek(bytesRemainingToSeek, false);
        if !seeked {
          return false;
        }
        bytesRemainingToSeek := 0;
      }
    }
    ok := true;
  }

  /** `drwav__seek_from_start`. */
  method SeekFromStart(stream: MemoryStream, target: nat) returns (ok: bool)
    requires stream.Valid()
    modifies stream`pos
    ensures stream.Valid() && (ok <==> target <= |stream.data|) && (ok ==> stream.pos == target)
  {
    if target <= 0x7FFF_FFFF {
      ok := stream.OnSeek(target, true);
      return;
    }
    ok := stream.OnSeek(0x7FFF_FFFF, true);
    if !ok {
      return;
    }
    var offset := target - 0x7FFF_FFFF;
    while true
      invariant stream.Valid() && 0 <= offset && stream.pos + offset == target
      decreases offset
    {
      if offset <= 0x7FFF_FFFF {
        ok := stream.OnSeek(offset, false);
        return;
      }
      ok := stream.OnSeek(0x7FFF_FFFF, false);
      if !ok {
        return;
      }
      offset := offset - 0x7FFF_FFFF;
    }
  }

  /** `drwav__read_chunk_header`. */
  method ReadChunkHeader(stream: MemoryStream, c: Container) returns (r: Option<ChunkHeader>)
    requires stream.Valid()
    modifies stream`pos
    ensures stream.Valid() && r == ReadHeader(stream.data, c, old(stream.pos)) && (r.Some? ==> stream.pos == r.value.body)
  {
    ghost var pos := stream.pos;
    if c != W64 {
      var id := stream.OnRead(4);
      if |id| != 4 {
        return None;
      }
      var sizeInBytes := stream.OnRead(4);
      if |sizeInBytes| != 4 {
        return None;
      }
      var size := Number(c, sizeInBytes);
      r := Some(ChunkHeader(id, size, PaddingRiff(size), stream.pos));
    } else {
      var id := stream.OnRead(16);
      if |id| != 16 {
        return None;
      }
      var sizeInBytes := stream.OnRead(8);
      if |sizeInBytes| != 8 {
        return None;
      }
      var size := Wrap64(Number(c, sizeInBytes) - 24);
      r := Some(ChunkHeader(id, size, PaddingW64(size), stream.pos));
    }
  }

  /** Skipping `n` bytes, and keeping count. */
  method Skip(stream: MemoryStream, p: Progress, n: nat) returns (r: Step)
    requires stream.Valid() && p.pos == stream.pos
    modifies stream`pos
    ensures stream.Valid() && r == Forward(stream.data, p, n) && (r.More? ==> stream.pos == r.p.pos)
  {
    var ok := SeekForward(stream, n);
    if !ok {
      return Reject;
    }
    r := More(p.(pos := stream.pos, cursor := Wrap64(p.cursor + n)));
  }

  /** The rest of a "fmt " chunk of more than 16 bytes. */
  method ParseExtension(stream: MemoryStream, c: Container, p0: Progress, size: nat) returns (r: Step)
    requires stream.Valid() && p0.pos == stream.pos
    modifies stream`pos
    ensures stream.Valid() && r == ReadExtension(stream.data, c, p0, size) && (r.More? ==> stream.pos == r.p.pos)
  {
    hide Number, Wrap64, ReadExtensionBody;
    var cbSize := stream.OnRead(2);
    if |cbSize| != 2 {
      return Reject;
    }
    r := ParseExtensionBody(stream, c, p0.(pos := stream.pos, cursor := Wrap64(p0.cursor + 2)), Number(c, cbSize), size);
  }

  method ParseExtensionBody(stream: MemoryStream, c: Container, p0: Progress, extendedSize: nat, size: nat) returns (r: Step)
    requires stream.Valid() && p0.pos == stream.pos && p0.cursor < TWO_TO_THE_64
    modifies stream`pos
    ensures stream.Valid() && r == ReadExtensionBody(stream.data, c, p0, extendedSize, size) && (r.More? ==> stream.pos == r.p.pos)
  {
    hide Number, Wrap64, Remainder;
    var p := p0.(subFormat := 0);
    var bytesReadSoFar := 18;
    if extendedSize > 0 {
      if p.fmt.formatTag == EXTENSIBLE {
        if extendedSize != 22 {
          return Reject;
        }
        var fmtext := stream.OnRead(22);
        if |fmtext| != 22 {
          return Reject;
        }
        p := p.(subFormat := Number(c, fmtext[6..8]));
        SliceOfSlice(stream.data, p0.pos, p0.pos + 22, 6, 8);
      } else {
        var ok := stream.OnSeek(extendedSize, false);
        if !ok {
          return Reject;
        }
      }
      p := p.(cursor := Wrap64(p.cursor + extendedSize));
      bytesReadSoFar := bytesReadSoFar + extendedSize;
    }
    r := SkipRemainder(stream, p.(pos := stream.pos), Wrap64(size - bytesReadSoFar));
  }

  method SkipRemainder(stream: MemoryStream, p: Progress, n: nat) returns (r: Step)
    requires stream.Valid() && p.pos == stream.pos
    modifies stream`pos
    ensures stream.Valid() && r == Remainder(stream.data, p, n) && (r.More? ==> stream.pos == r.p.pos)
  {
    var ok := stream.OnSeek(ToInt32(n % TWO_TO_THE_32), false);
    if !ok {
      return Reject;
    }
    r := More(p.(pos := stream.pos, cursor := Wrap64(p.cursor + n)));
  }

  method ParseFmtChunk(stream: MemoryStream, c: Container, p0: Progress, h: ChunkHeader) returns (r: Step)
    requires stream.Valid() && p0.pos == stream.pos
    modifies stream`pos
    ensures stream.Valid() && r == ReadFmtChunk(stream.data, c, p0, h) && (r.More? ==> stream.pos == r.p.pos)
  {
    hide ReadFmt, ReadExtension, Wrap64, Number;
    var fmtData := stream.OnRead(16);
    if |fmtData| != 16 {
      return Reject;
    }
    var p := p0.(pos := stream.pos, cursor := Wrap64(p0.cursor + 16), foundFmt := true, fmt := ReadFmt(c, fmtData), subFormat := 0);
    r := More(p);
    if h.size > 16 {
      r := ParseExtension(stream, c, p, h.size);
      if r.Reject? {
        return;
      }
    }
    if h.padding > 0 {
      r := Skip(stream, r.p, h.padding);
    }
  }

  method ParseFactChunk(stream: MemoryStream, c: Container, p0: Progress, h: ChunkHeader) returns (r: Step)
    requires stream.Valid() && p0.pos == stream.pos && p0.cursor < TWO_TO_THE_64
    modifies stream`pos
    ensures stream.Valid() && r == ReadFactChunk(stream.data, c, p0, h) && (r.More? ==> stream.pos == r.p.pos)
  {
    hide FromLittle, Forward;
    var p, chunkSize: int := p0, h.size;
    if c == Riff || c == Rifx {
      var sampleCount := stream.OnRead(4);
      if |sampleCount| != 4 {
        return Reject;
      }
      chunkSize := chunkSize - 4;
      // The source would keep the count for ADPCM, but it tests the tag before it is set.
      p := p.(pos := stream.pos, cursor := Wrap64(p.cursor + 4), sampleCount := 0);
    } else if c == W64 {
      var sampleCount := stream.OnRead(8);
      if |sampleCount| != 8 {
        return Reject;
      }
      chunkSize := chunkSize - 8;
      p := p.(pos := stream.pos, cursor := Wrap64(p.cursor + 8), sampleCount := FromLittle(sampleCount));
    }
    r := Skip(stream, p, Wrap64(chunkSize + h.padding));
  }

  /** One round of the loop over the chunks. */
  method ParseChunk(stream: MemoryStream, c: Container, p: Progress) returns (r: Step)
    requires stream.Valid() && p.pos == stream.pos
    modifies stream`pos
    ensures stream.Valid() && r == ReadChunk(stream.data, c, p) && (!r.Reject? ==> stream.pos == r.p.pos)
  {
    hide ReadFmtChunk, ReadFactChunk, Forward, Number, FmtId, DataId, FactId, Wrap64, ReadHeader;
    var header := ReadChunkHeader(stream, c);
    if header.None? {
      return Reject;
    }
    var h := header.value;
    var q := p.(pos := stream.pos, cursor := Wrap64(p.cursor + HeaderBytes(c)));
    if h.id == FmtId(c) {
      r := ParseFmtChunk(stream, c, q, h);
    } else if h.id == DataId(c) {
      r := FoundData(q, h.size);
    } else if h.id == FactId(c) {
      r := ParseFactChunk(stream, c, q, h);
    } else {
      r := Skip(stream, q, Wrap64(h.size + h.padding));
    }
  }

  /** The loop over the chunks, left when it would go on forever. */
  method ParseChunks(stream: MemoryStream, c: Container, p0: Progress) returns (r: Walk)
    requires stream.Valid() && p0.pos == stream.pos
    modifies stream`pos
    ensures stream.Valid() && r == WalkChunks(stream.data, c, p0, Enough(stream.data))
  {
    hide ReadChunk;
    var p := p0;
    for i := 0 to Enough(stream.data)
      invariant stream.Valid() && p.pos == stream.pos
      invariant WalkChunks(stream.data, c, p0, Enough(stream.data)) == WalkChunks(stream.data, c, p, Enough(stream.data) - i)
    {
      var step := ParseChunk(stream, c, p);
      match step
      case Reject =>
        return Rejected;
      case FoundData(q, size) =>
        return Arrived(q, size);
      case More(q) =>
        p := q;
    }
    r := OutOfFuel;
  }

  /** A `drwav` open for reading. */
  class Reader {
    const stream: MemoryStream
    var container: Container
    var fmt: Fmt
    var translatedFormatTag: nat
    var dataChunkDataPos: nat
    var dataChunkDataSize: nat
    var totalPCMFrameCount: nat
    var bytesRemaining: nat
    var readCursorInPCMFrames: nat

    constructor (data: seq<Byte>)
      ensures fresh(stream) && stream.Valid() && stream.data == data && stream.pos == 0
    {
      var s := new MemoryStream(data, 0);
      stream := s;
      container, fmt, translatedFormatTag, dataChunkDataPos, dataChunkDataSize := Riff, NO_FMT, 0, 0, 0;
      totalPCMFrameCount, bytesRemaining, readCursorInPCMFrames := 0, 0, 0;
    }

    /** The file is open at the state `info`, with nothing read yet. */
    ghost predicate IsOpen(info: Info)
      reads this, stream
    {
      && container == info.container && fmt == info.fmt && translatedFormatTag == info.translatedFormatTag
      && dataChunkDataPos == info.dataPos && dataChunkDataSize == info.dataSize == bytesRemaining
      && totalPCMFrameCount == info.totalFrames && readCursorInPCMFrames == 0 && stream.pos == info.pos
    }

    /** The identifiers at the start of the file, and the "ds64" chunk of an RF64 file. */
    method ParseOpening() returns (r: Option<Opening>)
      requires stream.Valid() && stream.pos == 0
      modifies stream`pos
      ensures stream.Valid() && r == ReadOpening(stream.data) && (r.Some? ==> stream.pos == r.value.pos)
    {
      hide FromLittle, ReadDs64;
      ghost var d := stream.data;
      var riff := stream.OnRead(4);
      if |riff| != 4 {
        return None;
      }
      StartsApart(d);
      if riff == RIFF_ID || riff == RIFX_ID || riff == RF64_ID {
        var chunkSizeBytes := stream.OnRead(4);
        if |chunkSizeBytes| != 4 {
          return None;
        }
        if riff == RF64_ID && FromLittle(chunkSizeBytes) != MAX_UINT32 {
          return None;
        }
        var wave := stream.OnRead(4);
        if |wave| != 4 || wave != WAVE_ID {
          return None;
        }
        if riff == RF64_ID {
          r := ParseDs64();
        } else {
          r := Some(Opening(if riff == RIFF_ID then Riff else Rifx, stream.pos, 0, 0));
        }
      } else if riff == W64_RIFF_ID[..4] {
        r := ParseW64();
      } else {
        r := None;
      }
    }

    method ParseW64() returns (r: Option<Opening>)
      requires stream.Valid() && stream.pos == 4 && stream.data[..4] == W64_RIFF_ID[..4]
      modifies stream`pos
      ensures stream.Valid() && r == ReadOpening(stream.data) && (r.Some? ==> stream.pos == r.value.pos)
    {
      hide FromLittle, ReadDs64;
      ghost var d := stream.data;
      StartsApart(d);
      var riff2 := stream.OnRead(12);
      if |riff2| != 12 {
        return None;
      }
      assert d[..16] == d[..4] + riff2;
      if riff2 != W64_RIFF_ID[4..] {
        return None;
      }
      var chunkSizeBytes := stream.OnRead(8);
      if |chunkSizeBytes| != 8 {
        return None;
      }
      if FromLittle(chunkSizeBytes) < 80 {
        return None;
      }
      var wave := stream.OnRead(16);
      if |wave| != 16 || wave != W64_WAVE_ID {
        return None;
      }
      r := Some(Opening(W64, stream.pos, 0, 0));
    }

    method ParseDs64() returns (r: Option<Opening>)
      requires stream.Valid() && stream.pos == 12
      modifies stream`pos
      ensures stream.Valid() && r == ReadDs64(stream.data) && (r.Some? ==> stream.pos == r.value.pos)
    {
      hide FromLittle;
      var header := ReadChunkHeader(stream, Rf64);
      if header.None? || header.value.id != DS64_ID {
        return None;
      }
      var ok := SeekForward(stream, 8);
      if !ok {
        return None;
      }
      var sizeBytes := stream.OnRead(8);
      if |sizeBytes| != 8 {
        return None;
      }
      var countBytes := stream.OnRead(8);
      if |countBytes| != 8 {
        return None;
      }
      var bytesRemainingInChunk := Wrap64(header.value.size + header.value.padding - 24);
      ok := SeekForward(stream, bytesRemainingInChunk);
      if !ok {
        return None;
      }
      r := Some(Opening(Rf64, stream.pos, FromLittle(sizeBytes), FromLittle(countBytes)));
    }

    /** Reading and discarding the rest of the stream, 4096 bytes at a time. */
    method CountRest() returns (n: nat)
      requires stream.Valid()
      modifies stream`pos
      ensures stream.Valid() && n == |stream.data| - old(stream.pos) && stream.pos == |stream.data|
    {
      n := 0;
      while true
        invariant stream.Valid() && n == stream.pos - old(stream.pos)
        decreases |stream.data| - stream.pos
      {
        var temp := stream.OnRead(4096);
        n := n + |temp|;
        if |temp| < 4096 {
          break;
        }
      }
    }

    /** `drwav_init__internal`. */
    method Open() returns (result: Outcome)
      requires stream.Valid() && stream.pos == 0
      modifies this, stream`pos
      ensures stream.Valid() && result == Parse(stream.data)
      ensures result.Opened? ==> IsOpen(result.info)
    {
      hide ReadOpening, WalkChunks, Finish;
      var opening := ParseOpening();
      if opening.None? {
        return Invalid;
      }
      var o := opening.value;
      var walk := ParseChunks(stream, o.container, Progress(o.pos, o.pos, false, NO_FMT, 0, o.sampleCount));
      match walk
      case OutOfFuel =>
        return Unfinished;
      case Rejected =>
        return Invalid;
      case Arrived(p, size) =>
        result := Complete(o.container, p, if o.container == Rf64 then o.dataSize else size);
    }

    /** What is left to do once the data chunk is found. */
    method Complete(c: Container, p: Progress, size: nat) returns (result: Outcome)
      requires stream.Valid() && p.pos <= |stream.data|
      modifies this, stream`pos
      ensures stream.Valid() && result == Finish(stream.data, c, p, size)
      ensures result.Opened? ==> IsOpen(result.info)
    {
      hide DataBytes, TotalFrames, Supported;
      if !p.foundFmt || !Plausible(p.fmt) {
        return Invalid;
      }
      var tag := if p.fmt.formatTag == EXTENSIBLE then p.subFormat else p.fmt.formatTag;
      var ok := SeekFromStart(stream, p.cursor);
      if !ok {
        return Invalid;
      }
      var dataChunkSize := size;
      if dataChunkSize == MAX_UINT32 && (c == Riff || c == Rifx) {
        dataChunkSize := CountRest();
      }
      container, fmt, translatedFormatTag, dataChunkDataPos, readCursorInPCMFrames := c, p.fmt, tag, p.cursor, 0;
      ok := SetSizes(dataChunkSize, p.sampleCount);
      if !ok {
        return Invalid;
      }
      result := Opened(Info(c, fmt, tag, p.cursor, dataChunkDataSize, totalPCMFrameCount, stream.pos));
    }

    /** The size of the data in whole frames, and their number. Some formats cannot be read. */
    method SetSizes(size: nat, sampleCount: nat) returns (ok: bool)
      requires fmt.blockAlign > 0 && fmt.channels > 0
      modifies `dataChunkDataSize, `bytesRemaining, `totalPCMFrameCount
      ensures ok <==> Supported(fmt, translatedFormatTag)
      ensures dataChunkDataSize == bytesRemaining == DataBytes(fmt, translatedFormatTag, size)
      ensures ok ==> totalPCMFrameCount == TotalFrames(fmt, translatedFormatTag, sampleCount, dataChunkDataSize)
    {
      hide WholeFrames, FrameCount, BlockFrames, BytesPerFrame, IsCompressed;
      var tag, dataChunkSize := translatedFormatTag, size;
      var bytesPerFrame := BytesPerFrame(fmt, tag);
      if !IsCompressed(tag) && bytesPerFrame > 0 {
        dataChunkSize := WholeFrames(dataChunkSize, bytesPerFrame);
      }
      bytesRemaining, dataChunkDataSize := dataChunkSize, dataChunkSize;
      if sampleCount != 0 {
        totalPCMFrameCount := sampleCount;
      } else {
        if bytesPerFrame == 0 {
          return false;
        }
        totalPCMFrameCount := FrameCount(dataChunkSize, bytesPerFrame);
        if IsCompressed(tag) {
          totalPCMFrameCount := BlockFrames(fmt, tag, dataChunkSize);
        }
      }
      if IsCompressed(tag) && fmt.channels > 2 {
        return false;
      }
      if bytesPerFrame == 0 {
        return false;
      }
      ok := true;
    }

    /** `drwav_get_bytes_per_pcm_frame` of the open file. */
    ghost function FrameSize(): nat
      reads this
    {
      BytesPerFrame(fmt, translatedFormatTag)
    }

    /** The stream stands at the frame of the cursor, and the data is all there. */
    ghost predicate Valid()
      reads this, stream
    {
      && stream.Valid() && FrameSize() > 0 && !IsCompressed(translatedFormatTag)
      && readCursorInPCMFrames <= totalPCMFrameCount
      && stream.pos == dataChunkDataPos + readCursorInPCMFrames * FrameSize()
      && bytesRemaining == (totalPCMFrameCount - readCursorInPCMFrames) * FrameSize() < TWO_TO_THE_64
      && stream.pos + bytesRemaining <= |stream.data|
    }

    /** The bytes of frames `i` to `j`. */
    ghost function Frames(i: nat, j: nat): seq<Byte>
      requires i <= j && dataChunkDataPos + j * FrameSize() <= |stream.data|
      reads this
    {
      FrameOrder(i, j, FrameSize());
      stream.data[dataChunkDataPos + i * FrameSize()..dataChunkDataPos + j * FrameSize()]
    }

    /** Moving on by `n` bytes, or to the end: by seeking as long as that works, then by reading. */
    method Discard(n: nat) returns (bytesRead: nat)
      requires stream.Valid()
      modifies stream`pos
      ensures stream.Valid() && bytesRead == Min(n, |stream.data| - old(stream.pos)) && stream.pos == old(stream.pos) + bytesRead
    {
      bytesRead := 0;
      while bytesRead < n
        invariant stream.Valid() && bytesRead <= n && stream.pos == old(stream.pos) + bytesRead
      {
        var bytesToSeek := n - bytesRead;
        if bytesToSeek > 0x7FFF_FFFF {
          bytesToSeek := 0x7FFF_FFFF;
        }
        var ok := stream.OnSeek(bytesToSeek, false);
        if !ok {
          break;
        }
        bytesRead := bytesRead + bytesToSeek;
      }
      while bytesRead < n
        invariant stream.Valid() && bytesRead <= n && stream.pos == old(stream.pos) + bytesRead
      {
        var bytesToSeek := n - bytesRead;
        if bytesToSeek > 4096 {
          bytesToSeek := 4096;
        }
        var buffer := stream.OnRead(bytesToSeek);
        bytesRead := bytesRead + |buffer|;
        if |buffer| < bytesToSeek {
          break;
        }
      }
    }

    /** `drwav_read_raw`, into a buffer or past the bytes. */
    method ReadRaw(bytesToRead0: nat, buffered: bool) returns (bytesRead: nat, bytes: seq<Byte>)
      requires stream.Valid() && FrameSize() > 0
      modifies stream`pos, `readCursorInPCMFrames, `bytesRemaining
      ensures stream.Valid()
      ensures bytesRead == Min(Min(bytesToRead0, old(bytesRemaining)), |stream.data| - old(stream.pos))
      ensures stream.pos == old(stream.pos) + bytesRead
      ensures bytes == if buffered then stream.data[old(stream.pos)..stream.pos] else []
      ensures bytesRemaining == old(bytesRemaining) - bytesRead
      ensures readCursorInPCMFrames == old(readCursorInPCMFrames) + FrameCount(bytesRead, FrameSize())
    {
      hide BytesPerFrame, FrameCount;
      var bytesToRead := bytesToRead0;
      FrameCountZero(FrameSize());
      if bytesToRead > bytesRemaining {
        bytesToRead := bytesRemaining;
      }
      if bytesToRead == 0 {
        return 0, [];
      }
      if buffered {
        bytes := stream.OnRead(bytesToRead);
        bytesRead := |bytes|;
      } else {
        bytesRead := Discard(bytesToRead);
        bytes := [];
      }
      readCursorInPCMFrames := readCursorInPCMFrames + FrameCount(bytesRead, BytesPerFrame(fmt, translatedFormatTag));
      bytesRemaining := bytesRemaining - bytesRead;
    }

    /** The bytes a read of `frames` frames gets: no more than are left in the chunk and in the stream. */
    ghost function Due(frames: nat): nat
      requires stream.Valid()
      reads this, stream
    {
      if frames == 0 || IsCompressed(translatedFormatTag) || FrameSize() == 0 then 0
      else Min(Min(Wrap64(Min(frames, Wrap64(totalPCMFrameCount - readCursorInPCMFrames)) * FrameSize()), bytesRemaining), |stream.data| - stream.pos)
    }

    /** `drwav_read_pcm_frames_le`: the bytes due, as many of the frames asked for as they make, and all of them where
        the data is all there. */
    method ReadFrames(framesToRead0: nat) returns (framesRead: nat, bytes: seq<Byte>)
      requires stream.Valid()
      modifies stream`pos, `readCursorInPCMFrames, `bytesRemaining
      ensures stream.Valid() && readCursorInPCMFrames == old(readCursorInPCMFrames) + framesRead
      ensures var n := old(Due(framesToRead0));
        && stream.pos == old(stream.pos) + n && bytes == stream.data[old(stream.pos)..stream.pos]
        && bytesRemaining == old(bytesRemaining) - n
        && framesRead == if n == 0 then 0 else FrameCount(n, FrameSize())
      ensures old(Valid()) ==>
        && Valid() && framesRead == Min(framesToRead0, totalPCMFrameCount - old(readCursorInPCMFrames))
        && dataChunkDataPos + readCursorInPCMFrames * FrameSize() <= |stream.data|
        && bytes == Frames(old(readCursorInPCMFrames), readCursorInPCMFrames)
    {
      hide BytesPerFrame, FrameCount, IsCompressed;
      var framesToRead := framesToRead0;
      if framesToRead == 0 {
        return 0, [];
      }
      if IsCompressed(translatedFormatTag) {
        return 0, [];
      }
      var framesRemainingInFile := Wrap64(totalPCMFrameCount - readCursorInPCMFrames);
      if framesToRead > framesRemainingInFile {
        framesToRead := framesRemainingInFile;
      }
      var bytesPerFrame := BytesPerFrame(fmt, translatedFormatTag);
      if bytesPerFrame == 0 {
        return 0, [];
      }
      CountFits(totalPCMFrameCount - readCursorInPCMFrames, bytesPerFrame);
      FrameOrder(framesToRead, framesRemainingInFile, bytesPerFrame);
      FramesAdd(readCursorInPCMFrames, framesToRead, framesRemainingInFile, bytesPerFrame);
      var bytesToRead := Wrap64(framesToRead * bytesPerFrame);
      if bytesToRead == 0 {
        return 0, [];
      }
      var bytesRead;
      bytesRead, bytes := ReadRaw(bytesToRead, true);
      FrameCountZero(bytesPerFrame);
      framesRead := FrameCount(bytesRead, bytesPerFrame);
    }
  }

  lemma CountFits(frames: int, bpf: nat)
    requires bpf > 0
    ensures 0 <= frames && frames * bpf < TWO_TO_THE_64 ==> Wrap64(frames) == frames
  {
    if 0 <= frames {
      Powers.MulAtLeast(frames, bpf, 1);
    }
  }

  lemma FrameOrder(i: nat, j: nat, bpf: nat)
    requires i <= j
    ensures 0 <= i * bpf <= j * bpf
  {
    assert j * bpf == i * bpf + (j - i) * bpf;
    assert (j - i) * bpf >= 0 && i * bpf >= 0;
  }

  lemma FramesAdd(cursor: nat, n: nat, rest: nat, bpf: nat)
    requires bpf > 0 && n <= rest
    ensures (cursor + n) * bpf == cursor * bpf + n * bpf
    ensures (rest - n) * bpf == rest * bpf - n * bpf
    ensures n * bpf >= 0 && FrameCount(n * bpf, bpf) == n && (n * bpf == 0 <==> n == 0)
  {
    Powers.DivModUnique(n * bpf, bpf, n, 0);
    if n > 0 {
      Powers.MulAtLeast(n, bpf, 1);
    }
  }

  lemma FrameCountZero(bpf: nat)
    requires bpf > 0
    ensures FrameCount(0, bpf) == 0
  {
    Powers.DivModUnique(0, bpf, 0, 0);
  }
}
