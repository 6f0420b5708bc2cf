/** What opening a WAV file finds in it (core-interface/wav/dr_wav.h: `drwav_init__internal` without metadata and
    not sequentially, `drwav__read_chunk_header`), as functions of the file's bytes. */
module WavParser {
  import Powers
  import opened Bytes
  import opened WavFormat

  function Wrap64(x: int): (r: nat)
    ensures r < TWO_TO_THE_64 && (0 <= x < TWO_TO_THE_64 ==> r == x)
  {
    x % TWO_TO_THE_64
  }

  /** A chunk's header and where its body starts. */
  datatype ChunkHeader = ChunkHeader(id: seq<Byte>, size: nat, padding: nat, body: nat)

  function IdBytes(c: Container): nat { if c == W64 then 16 else 4 }
  function SizeBytes(c: Container): nat { if c == W64 then 8 else 4 }
  function HeaderBytes(c: Container): nat { IdBytes(c) + SizeBytes(c) }

  /** `drwav__read_chunk_header`. */
  function ReadHeader(d: seq<Byte>, c: Container, pos: nat): (r: Option<ChunkHeader>)
    requires pos <= |d|
    ensures r.Some? ==> r.value.body == pos + HeaderBytes(c) <= |d|
  {
    if pos + HeaderBytes(c) > |d| then None
    else
      var n := Number(c, d[pos + IdBytes(c)..pos + HeaderBytes(c)]);
      var size := if c == W64 then Wrap64(n - 24) else n;
      Some(ChunkHeader(d[pos..pos + IdBytes(c)], size, Padding(c, size), pos + HeaderBytes(c)))
  }

  /** The parser between chunks: the read position, the position as it keeps count of it, and what it has
      found. `subFormat` is the format tag of an extensible format. */
  datatype Progress = Progress(pos: nat, cursor: nat, foundFmt: bool, fmt: Fmt, subFormat: nat, sampleCount: nat)

  /** What one chunk leads to. */
  datatype Step = More(p: Progress) | FoundData(p: Progress, size: nat) | Reject

  const NO_FMT := Fmt(0, 0, 0, 0, 0, 0)

  /** Moving on by `n` bytes, in pieces of at most 2^31 - 1. */
  function Forward(d: seq<Byte>, p: Progress, n: nat): (r: Step)
    ensures r.Reject? || (r.More? && r.p.cursor < TWO_TO_THE_64)
  {
    if p.pos + n <= |d| then More(p.(pos := p.pos + n, cursor := Wrap64(p.cursor + n))) else Reject
  }

  /** The extension of a "fmt " chunk of more than 16 bytes. */
  function ReadExtension(d: seq<Byte>, c: Container, p: Progress, size: nat): (r: Step)
    ensures r.Reject? || (r.More? && r.p.cursor < TWO_TO_THE_64 && r.p.pos <= |d|)
  {
    if p.pos + 2 > |d| then Reject
    else
      ReadExtensionBody(d, c, p.(pos := p.pos + 2, cursor := Wrap64(p.cursor + 2)), Number(c, d[p.pos..p.pos + 2]), size)
  }

  /** Its `n` bytes, of which only an extensible format's are looked at, and what is left of the chunk. */
  function ReadExtensionBody(d: seq<Byte>, c: Container, p: Progress, n: nat, size: nat): (r: Step)
    ensures r.Reject? || (r.More? && r.p.cursor < TWO_TO_THE_64 && r.p.pos <= |d|)
  {
    var extensible := p.fmt.formatTag == EXTENSIBLE;
    if n > 0 && extensible && n != 22 then Reject
    else if p.pos + n > |d| then Reject
    else
      var sub := if n > 0 && extensible then Number(c, d[p.pos + 6..p.pos + 8]) else 0;
      Remainder(d, p.(pos := p.pos + n, cursor := Wrap64(p.cursor + n), subFormat := sub), Wrap64(size - (18 + n)))
  }

  /** Moving on by a number of bytes taken to be an `int`, but counted in full. */
  function Remainder(d: seq<Byte>, p: Progress, n: nat): (r: Step)
    ensures r.Reject? || (r.More? && r.p.cursor < TWO_TO_THE_64 && r.p.pos <= |d|)
  {
    var target := p.pos + ToInt32(n % TWO_TO_THE_32);
    if 0 <= target <= |d| then More(p.(pos := target, cursor := Wrap64(p.cursor + n))) else Reject
  }

  /** The "fmt " chunk. */
  function ReadFmtChunk(d: seq<Byte>, c: Container, p: Progress, h: ChunkHeader): (r: Step)
    ensures r.Reject? || (r.More? && r.p.cursor < TWO_TO_THE_64)
  {
    if p.pos + 16 > |d| then Reject
    else
      var q := p.(pos := p.pos + 16, cursor := Wrap64(p.cursor + 16), foundFmt := true, fmt := ReadFmt(c, d[p.pos..p.pos + 16]), subFormat := 0);
      var r := if h.size > 16 then ReadExtension(d, c, q, h.size) else More(q);
      if r.Reject? then Reject else Forward(d, r.p, h.padding)
  }

  /** The "fact" chunk; only W64 takes the sample count from it. */
  function ReadFactChunk(d: seq<Byte>, c: Container, p: Progress, h: ChunkHeader): (r: Step)
    ensures r.Reject? || (r.More? && r.p.cursor < TWO_TO_THE_64)
  {
    var n := if c == Rf64 then 0 else if c == W64 then 8 else 4;
    if p.pos + n > |d| then Reject
    else
      var count := if c == Rf64 then p.sampleCount else if c == W64 then FromLittle(d[p.pos..p.pos + 8]) else 0;
      Forward(d, p.(pos := p.pos + n, cursor := Wrap64(p.cursor + n), sampleCount := count), Wrap64(h.size - n + h.padding))
  }

  /** One chunk. When no header can be read the data chunk is missing, and the file is rejected. */
  function ReadChunk(d: seq<Byte>, c: Container, p: Progress): Step
    requires p.pos <= |d|
  {
    match ReadHeader(d, c, p.pos)
    case None => Reject
    case Some(h) =>
      var q := p.(pos := h.body, cursor := Wrap64(p.cursor + HeaderBytes(c)));
      if h.id == FmtId(c) then ReadFmtChunk(d, c, q, h)
      else if h.id == DataId(c) then FoundData(q, h.size)
      else if h.id == FactId(c) then ReadFactChunk(d, c, q, h)
      else Forward(d, q, Wrap64(h.size + h.padding))
  }

  /** Where a step leaves the parser it stays in the file. */
  lemma StepInFile(d: seq<Byte>, c: Container, p: Progress)
    requires p.pos <= |d|
    ensures var r := ReadChunk(d, c, p); !r.Reject? ==> r.p.pos <= |d|
  {
  }

  /** The walk over at most `fuel` chunks, up to the data chunk. */
  datatype Walk = Arrived(p: Progress, size: nat) | Rejected | OutOfFuel

  function WalkChunks(d: seq<Byte>, c: Container, p: Progress, fuel: nat): (r: Walk)
    requires p.pos <= |d|
    ensures r.Arrived? ==> r.p.pos <= |d|
    decreases fuel
  {
    if fuel == 0 then OutOfFuel
    else
      StepInFile(d, c, p);
      match ReadChunk(d, c, p)
      case Reject => Rejected
      case FoundData(q, size) => Arrived(q, size)
      case More(q) => WalkChunks(d, c, q, fuel - 1)
  }

  /** Enough chunks to look at: a walk still going on then goes on forever. */
  function Enough(d: seq<Byte>): nat { |d| + 1 }

  /** The start of a file: the container, where its chunks begin, and the sizes an RF64 file gives there. */
  datatype Opening = Opening(container: Container, pos: nat, dataSize: nat, sampleCount: nat)

  function ReadOpening(d: seq<Byte>): (r: Option<Opening>)
    ensures r.Some? ==> r.value.pos <= |d|
  {
    if |d| < 12 then None
    else if d[..4] == RIFF_ID && d[8..12] == WAVE_ID then Some(Opening(Riff, 12, 0, 0))
    else if d[..4] == RIFX_ID && d[8..12] == WAVE_ID then Some(Opening(Rifx, 12, 0, 0))
    else if d[..4] == RF64_ID && FromLittle(d[4..8]) == MAX_UINT32 && d[8..12] == WAVE_ID then ReadDs64(d)
    else if |d| >= 40 && d[..16] == W64_RIFF_ID && FromLittle(d[16..24]) >= 80 && d[24..40] == W64_WAVE_ID then Some(Opening(W64, 40, 0, 0))
    else None
  }

  /** The containers are told apart by their first bytes. */
  lemma StartsApart(d: seq<Byte>)
    requires |d| >= 4
    ensures d[..4] == RIFF_ID ==> d[0] == 0x52 && d[1] == 0x49 && d[3] == 0x46
    ensures d[..4] == RIFX_ID ==> d[0] == 0x52 && d[1] == 0x49 && d[3] == 0x58
    ensures d[..4] == RF64_ID ==> d[0] == 0x52 && d[1] == 0x46
    ensures d[..4] == W64_RIFF_ID[..4] ==> d[0] == 0x72
    ensures |d| >= 16 && d[..16] == W64_RIFF_ID ==> d[..4] == W64_RIFF_ID[..4]
  {
    assert d[..4][0] == d[0] && d[..4][1] == d[1] && d[..4][3] == d[3];
    if |d| >= 16 {
      assert d[..16][..4] == d[..4];
    }
  }

  /** The "ds64" chunk at position 12. */
  function ReadDs64(d: seq<Byte>): (r: Option<Opening>)
    requires |d| >= 12
    ensures r.Some? ==> r.value.pos <= |d|
  {
    match ReadHeader(d, Rf64, 12)
    case None => None
    case Some(h) =>
      if h.id != DS64_ID || |d| < 44 then None
      else
        var left := Wrap64(h.size + h.padding - 24);
        if 44 + left > |d| then None
        else Some(Opening(Rf64, 44 + left, FromLittle(d[28..36]), FromLittle(d[36..44])))
  }

  /** A file open for reading. */
  datatype Info = Info(container: Container, fmt: Fmt, translatedFormatTag: nat,
                       dataPos: nat, dataSize: nat, totalFrames: nat, pos: nat)

  datatype Outcome = Opened(info: Info) | Invalid | Unfinished

  predicate IsCompressed(tag: nat) { tag == ADPCM || tag == DVI_ADPCM }

  predicate Plausible(fmt: Fmt) {
    && 0 < fmt.sampleRate <= MAX_SAMPLE_RATE && 0 < fmt.channels <= MAX_CHANNELS
    && 0 < fmt.bitsPerSample <= MAX_BITS_PER_SAMPLE && fmt.blockAlign > 0
  }

  /** The frames of a compressed file: two samples a byte, not counting each block's header. */
  function BlockFrames(fmt: Fmt, tag: nat, size: nat): nat
    requires fmt.blockAlign > 0 && fmt.channels > 0
  {
    Powers.DivModFacts(size, fmt.blockAlign);
    var blocks := size / fmt.blockAlign + if size / fmt.blockAlign * fmt.blockAlign < size then 1 else 0;
    var headers := Wrap64(blocks * (if tag == ADPCM then 6 * fmt.channels else 4 * fmt.channels));
    var frames := Wrap64(Wrap64(size - headers) * 2);
    Powers.DivModFacts(frames, fmt.channels);
    Wrap64(frames / fmt.channels + if tag == ADPCM then 0 else blocks)
  }

  /** What is left to do once the data chunk is found; `size` is its size, and `p.cursor` where it starts. */
  function Finish(d: seq<Byte>, c: Container, p: Progress, size: nat): Outcome
    requires p.pos <= |d|
  {
    var tag := if p.fmt.formatTag == EXTENSIBLE then p.subFormat else p.fmt.formatTag;
    if !p.foundFmt || !Plausible(p.fmt) || p.cursor > |d| then Invalid
    else
      // A RIFF data chunk of the largest size is taken to reach to the end of the file, where the stream is left.
      var unknown := size == MAX_UINT32 && (c == Riff || c == Rifx);
      var known := if unknown then |d| - p.cursor else size;
      var pos := if unknown then |d| else p.cursor;
      var dataSize := DataBytes(p.fmt, tag, known);
      if !Supported(p.fmt, tag) then Invalid
      else Opened(Info(c, p.fmt, tag, p.cursor, dataSize, TotalFrames(p.fmt, tag, p.sampleCount, dataSize), pos))
  }

  /** The formats whose frames have a size, of at most two channels when compressed. */
  predicate Supported(fmt: Fmt, tag: nat) {
    BytesPerFrame(fmt, tag) > 0 && (IsCompressed(tag) ==> fmt.channels <= 2)
  }

  /** The bytes of data that make whole frames; compressed data is taken as it is. */
  function DataBytes(fmt: Fmt, tag: nat, size: nat): nat {
    var bpf := BytesPerFrame(fmt, tag);
    if IsCompressed(tag) || bpf == 0 then size else WholeFrames(size, bpf)
  }

  /** The number of frames: the one given, if there is one, or as many as the data has. */
  function TotalFrames(fmt: Fmt, tag: nat, given: nat, dataSize: nat): nat
    requires Supported(fmt, tag) && fmt.blockAlign > 0 && fmt.channels > 0
  {
    if given != 0 then given
    else if IsCompressed(tag) then BlockFrames(fmt, tag, dataSize)
    else FrameCount(dataSize, BytesPerFrame(fmt, tag))
  }

  /** `n` bytes without those of an incomplete frame at the end. */
  function WholeFrames(n: nat, bpf: nat): (r: nat)
    requires bpf > 0
    ensures r <= n
  {
    Powers.DivModFacts(n, bpf);
    assert n / bpf * bpf >= 0;
    n - n % bpf
  }

  function FrameCount(n: nat, bpf: nat): nat
    requires bpf > 0
  {
    Powers.DivModFacts(n, bpf);
    n / bpf
  }

  /** Where the walk of a file starts. */
  function FirstProgress(o: Opening): Progress {
    Progress(o.pos, o.pos, false, NO_FMT, 0, o.sampleCount)
  }

  /** Opening a file in memory. It is unfinished when the source never comes to an end. */
  function Parse(d: seq<Byte>): Outcome {
    match ReadOpening(d)
    case None => Invalid
    case Some(o) =>
      match WalkChunks(d, o.container, FirstProgress(o), Enough(d))
      case OutOfFuel => Unfinished
      case Rejected => Invalid
      case Arrived(p, size) => Finish(d, o.container, p, if o.container == Rf64 then o.dataSize else size)
  }
}
