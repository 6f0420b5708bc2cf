/** Opening a file made of any chunks (core-interface/wav/dr_wav.h: `drwav_init__internal`): what the chunks say is what
    is found, in every container and in either byte order. */
module WavPieces {
  import opened Bytes
  import opened WavFormat
  import opened WavParser
  import opened WavWriter
  import opened WavRoundTrip

  // Numbers, in the container's byte order.

  function Big(x: nat, n: nat): (r: seq<Byte>)
    ensures |r| == n
  {
    if n == 0 then [] else Big(x / 256, n - 1) + [x % 256]
  }

  function Stored(c: Container, x: nat, n: nat): (r: seq<Byte>)
    ensures |r| == n
  {
    if c == Rifx then Big(x, n) else Little(x, n)
  }

  lemma {:induction false} BigRoundTrip(x: nat, n: nat)
    requires x < Power256(n)
    ensures FromBig(Big(x, n)) == x
  {
    if n > 0 {
      BigRoundTrip(x / 256, n - 1);
      assert Big(x, n)[..n - 1] == Big(x / 256, n - 1);
    }
  }

  lemma StoredRead(c: Container, x: nat, n: nat)
    requires n == 2 || n == 4 || n == 8
    requires x < if n == 2 then 0x1_0000 else if n == 4 then TWO_TO_THE_32 else TWO_TO_THE_64
    ensures Number(c, Stored(c, x, n)) == x
  {
    hide FromBig, FromLittle, Big, Little;
    Power256Values();
    if c == Rifx {
      BigRoundTrip(x, n);
    } else {
      LittleRoundTrip(x, n);
    }
  }

  lemma NumberOf(d: seq<Byte>, c: Container, pos: nat, x: nat, n: nat)
    requires Stands(d, pos, Stored(c, x, n)) && (n == 2 || n == 4 || n == 8)
    requires x < if n == 2 then 0x1_0000 else if n == 4 then TWO_TO_THE_32 else TWO_TO_THE_64
    ensures pos + n <= |d| && Number(c, d[pos..pos + n]) == x
  {
    hide FromBig, FromLittle, Stored, Number;
    StoredRead(c, x, n);
  }

  // Chunks.

  /** What may follow the first 16 bytes of a "fmt " chunk. */
  datatype Tail =
    | NoTail
    | Plain(ext: seq<Byte>, rest: seq<Byte>)
    | Extensible(validBits: nat, mask: nat, subFormat: nat, guid: seq<Byte>, rest: seq<Byte>)
  {
    predicate Valid() {
      match this
      case NoTail => true
      case Plain(ext, rest) => |ext| < 0x1_0000 && |rest| < 0x8000_0000
      case Extensible(validBits, mask, subFormat, guid, rest) =>
        validBits < 0x1_0000 && mask < TWO_TO_THE_32 && subFormat < 0x1_0000 && |guid| == 14 && |rest| < 0x8000_0000
    }

    function Bytes(c: Container): seq<Byte> {
      match this
      case NoTail => []
      case Plain(ext, rest) => Stored(c, |ext|, 2) + ext + rest
      case Extensible(validBits, mask, subFormat, guid, rest) =>
        Stored(c, 22, 2) + (Stored(c, validBits, 2) + Stored(c, mask, 4) + Stored(c, subFormat, 2) + guid) + rest
    }
  }

  /** A chunk before the data. */
  datatype Piece =
    | FmtPiece(fmt: Fmt, tail: Tail)
    | FactPiece(count: nat, rest: seq<Byte>)
    | OtherPiece(id: seq<Byte>, body: seq<Byte>)

  function FmtFields(c: Container, fmt: Fmt): (r: seq<Byte>)
    ensures |r| == 16
  {
    Stored(c, fmt.formatTag, 2) + Stored(c, fmt.channels, 2) + Stored(c, fmt.sampleRate, 4)
    + Stored(c, fmt.avgBytesPerSec, 4) + Stored(c, fmt.blockAlign, 2) + Stored(c, fmt.bitsPerSample, 2)
  }

  function CountBytes(c: Container): nat {
    if c == W64 then 8 else 4
  }

  function Id(c: Container, p: Piece): seq<Byte> {
    match p
    case FmtPiece(_, _) => FmtId(c)
    case FactPiece(_, _) => FactId(c)
    case OtherPiece(id, _) => id
  }

  function Body(c: Container, p: Piece): seq<Byte> {
    match p
    case FmtPiece(fmt, tail) => FmtFields(c, fmt) + tail.Bytes(c)
    case FactPiece(count, rest) => Stored(c, count, CountBytes(c)) + rest
    case OtherPiece(_, body) => body
  }

  /** A chunk's identifier, size, body and padding; a W64 size counts the header too. */
  function PieceBytes(c: Container, p: Piece): seq<Byte> {
    var body := Body(c, p);
    Id(c, p) + Stored(c, if c == W64 then |body| + 24 else |body|, SizeBytes(c)) + body + Zeros(Padding(c, |body|))
  }

  predicate ValidPiece(c: Container, p: Piece) {
    && |Body(c, p)| < (if c == W64 then 0x4000_0000_0000_0000 else TWO_TO_THE_32)
    && match p
       case FmtPiece(fmt, tail) =>
         fmt.Valid() && tail.Valid() && (tail.Plain? && tail.ext != [] ==> fmt.formatTag != EXTENSIBLE)
         && (tail.Extensible? ==> fmt.formatTag == EXTENSIBLE)
       case FactPiece(count, _) => count < if c == W64 then TWO_TO_THE_64 else TWO_TO_THE_32
       case OtherPiece(id, _) => |id| == IdBytes(c) && id != FmtId(c) && id != DataId(c) && id != FactId(c)
  }

  /** What a chunk says: the format, the sub-format of an extensible one, and in a W64 file the number of samples. */
  function Learn(c: Container, p: Progress, x: Piece): (r: Progress)
    ensures r.pos == p.pos && r.cursor == p.cursor
  {
    match x
    case FmtPiece(fmt, tail) =>
      p.(foundFmt := true, fmt := fmt, subFormat := if tail.Extensible? then tail.subFormat else 0)
    case FactPiece(count, _) =>
      if c == W64 then p.(sampleCount := count) else if c == Rf64 then p else p.(sampleCount := 0)
    case OtherPiece(_, _) => p
  }

  function Past(p: Progress, n: nat): Progress {
    p.(pos := p.pos + n, cursor := p.cursor + n)
  }

  // One chunk.

  /** The parts of a chunk that stands in a file. */
  lemma PieceParts(d: seq<Byte>, c: Container, pos: nat, p: Piece)
    requires Stands(d, pos, PieceBytes(c, p)) && |Id(c, p)| == IdBytes(c)
    ensures |PieceBytes(c, p)| == HeaderBytes(c) + |Body(c, p)| + Padding(c, |Body(c, p)|)
    ensures pos + |PieceBytes(c, p)| <= |d|
    ensures Stands(d, pos, Id(c, p)) && Stands(d, pos + HeaderBytes(c), Body(c, p))
    ensures Stands(d, pos + IdBytes(c), Stored(c, if c == W64 then |Body(c, p)| + 24 else |Body(c, p)|, SizeBytes(c)))
  {
    hide Stands, Stored, Body, Id;
    StandsInside(d, pos, PieceBytes(c, p));
    var id, body := Id(c, p), Body(c, p);
    var size := Stored(c, if c == W64 then |body| + 24 else |body|, SizeBytes(c));
    StandsApart(d, pos, id + size + body, Zeros(Padding(c, |body|)));
    StandsApart(d, pos, id + size, body);
    StandsApart(d, pos, id, size);
  }

  lemma HeaderRead(d: seq<Byte>, c: Container, pos: nat, p: Piece)
    requires Stands(d, pos, PieceBytes(c, p)) && |Id(c, p)| == IdBytes(c) && ValidPiece(c, p)
    ensures pos <= |d|
    ensures ReadHeader(d, c, pos) == Some(ChunkHeader(Id(c, p), |Body(c, p)|, Padding(c, |Body(c, p)|), pos + HeaderBytes(c)))
  {
    hide Stored, Body, Id, Number, PieceBytes;
    var n := |Body(c, p)|;
    PieceParts(d, c, pos, p);
    NumberOf(d, c, pos + IdBytes(c), if c == W64 then n + 24 else n, SizeBytes(c));
    StandsTogether(d, pos, Id(c, p), 0, IdBytes(c));
  }

  lemma FmtFieldsRead(d: seq<Byte>, c: Container, pos: nat, fmt: Fmt)
    requires Stands(d, pos, FmtFields(c, fmt)) && fmt.Valid()
    ensures pos + 16 <= |d| && ReadFmt(c, d[pos..pos + 16]) == fmt
  {
    assert pos + 16 <= |d|;
    hide Stands, Stored, Number;
    var a, b, e, g, h, i := Stored(c, fmt.formatTag, 2), Stored(c, fmt.channels, 2), Stored(c, fmt.sampleRate, 4),
      Stored(c, fmt.avgBytesPerSec, 4), Stored(c, fmt.blockAlign, 2), Stored(c, fmt.bitsPerSample, 2);
    StandsApart(d, pos, a + b + e + g + h, i);
    StandsApart(d, pos, a + b + e + g, h);
    StandsApart(d, pos, a + b + e, g);
    StandsApart(d, pos, a + b, e);
    StandsApart(d, pos, a, b);
    FieldRead(d, c, pos, 16, 0, fmt.formatTag, 2);
    FieldRead(d, c, pos, 16, 2, fmt.channels, 2);
    FieldRead(d, c, pos, 16, 4, fmt.sampleRate, 4);
    FieldRead(d, c, pos, 16, 8, fmt.avgBytesPerSec, 4);
    FieldRead(d, c, pos, 16, 12, fmt.blockAlign, 2);
    FieldRead(d, c, pos, 16, 14, fmt.bitsPerSample, 2);
  }

  /** A number read out of `size` bytes that were read first. */
  lemma FieldRead(d: seq<Byte>, c: Container, pos: nat, size: nat, k: nat, x: nat, n: nat)
    requires Stands(d, pos + k, Stored(c, x, n)) && (n == 2 || n == 4 || n == 8) && k + n <= size && pos + size <= |d|
    requires x < if n == 2 then 0x1_0000 else if n == 4 then TWO_TO_THE_32 else TWO_TO_THE_64
    ensures Number(c, d[pos..pos + size][k..k + n]) == x
  {
    hide Stored, Number;
    NumberOf(d, c, pos + k, x, n);
    SliceOfSlice(d, pos, pos + size, k, k + n);
  }

  /** The rest of a "fmt " chunk. */
  lemma TailRead(d: seq<Byte>, c: Container, p: Progress, tail: Tail)
    requires Stands(d, p.pos, tail.Bytes(c)) && tail.Valid() && !tail.NoTail? && p.cursor == p.pos && |d| < TWO_TO_THE_64
    requires if tail.Extensible? then p.fmt.formatTag == EXTENSIBLE else tail.ext != [] ==> p.fmt.formatTag != EXTENSIBLE
    ensures p.pos + |tail.Bytes(c)| <= |d|
    ensures ReadExtension(d, c, p, 16 + |tail.Bytes(c)|)
         == More(Past(p, |tail.Bytes(c)|).(subFormat := if tail.Extensible? then tail.subFormat else 0))
  {
    hide Stored, ReadExtension;
    match tail
    case Plain(ext, rest) => PlainRead(d, c, p, ext, rest);
    case Extensible(v, m, sub, guid, rest) => ExtensibleRead(d, c, p, v, m, sub, guid, rest);
  }

  lemma RemainderRead(d: seq<Byte>, p: Progress, n: nat)
    requires p.cursor == p.pos && p.pos + n <= |d| < TWO_TO_THE_64 && n < 0x8000_0000
    ensures Remainder(d, p, n) == More(Past(p, n))
  {
  }

  lemma PlainRead(d: seq<Byte>, c: Container, p: Progress, ext: seq<Byte>, rest: seq<Byte>)
    requires Stands(d, p.pos, Stored(c, |ext|, 2) + ext + rest) && |ext| < 0x1_0000 && |rest| < 0x8000_0000
    requires p.cursor == p.pos && |d| < TWO_TO_THE_64 && (ext != [] ==> p.fmt.formatTag != EXTENSIBLE)
    ensures p.pos + 2 + |ext| + |rest| <= |d|
    ensures ReadExtension(d, c, p, 18 + |ext| + |rest|) == More(Past(p, 2 + |ext| + |rest|).(subFormat := 0))
  {
    hide Stands, Stored, Number, Remainder, Wrap64;
    StandsInside(d, p.pos, Stored(c, |ext|, 2) + ext + rest);
    StandsApart(d, p.pos, Stored(c, |ext|, 2) + ext, rest);
    StandsApart(d, p.pos, Stored(c, |ext|, 2), ext);
    NumberOf(d, c, p.pos, |ext|, 2);
    RemainderRead(d, Past(p, 2 + |ext|).(subFormat := 0), |rest|);
  }

  lemma ExtensibleRead(d: seq<Byte>, c: Container, p: Progress, v: nat, m: nat, sub: nat, guid: seq<Byte>, rest: seq<Byte>)
    requires v < 0x1_0000 && m < TWO_TO_THE_32 && sub < 0x1_0000 && |guid| == 14 && |rest| < 0x8000_0000
    requires Stands(d, p.pos, Stored(c, 22, 2) + (Stored(c, v, 2) + Stored(c, m, 4) + Stored(c, sub, 2) + guid) + rest)
    requires p.cursor == p.pos && |d| < TWO_TO_THE_64 && p.fmt.formatTag == EXTENSIBLE
    ensures p.pos + 24 + |rest| <= |d|
    ensures ReadExtension(d, c, p, 40 + |rest|) == More(Past(p, 24 + |rest|).(subFormat := sub))
  {
    hide Stands, Stored, Number, Remainder, Wrap64;
    StandsInside(d, p.pos, Stored(c, 22, 2) + (Stored(c, v, 2) + Stored(c, m, 4) + Stored(c, sub, 2) + guid) + rest);
    SubFormatStands(d, c, p.pos, v, m, sub, guid, rest);
    NumberOf(d, c, p.pos, 22, 2);
    NumberOf(d, c, p.pos + 8, sub, 2);
    RemainderRead(d, Past(p, 24).(subFormat := sub), |rest|);
  }

  lemma SubFormatStands(d: seq<Byte>, c: Container, pos: nat, v: nat, m: nat, sub: nat, guid: seq<Byte>, rest: seq<Byte>)
    requires |guid| == 14
    requires Stands(d, pos, Stored(c, 22, 2) + (Stored(c, v, 2) + Stored(c, m, 4) + Stored(c, sub, 2) + guid) + rest)
    ensures Stands(d, pos, Stored(c, 22, 2)) && Stands(d, pos + 8, Stored(c, sub, 2))
  {
    hide Stands, Stored;
    var a, b, e := Stored(c, v, 2), Stored(c, m, 4), Stored(c, sub, 2);
    StandsApart(d, pos, Stored(c, 22, 2) + (a + b + e + guid), rest);
    StandsApart(d, pos, Stored(c, 22, 2), a + b + e + guid);
    StandsApart(d, pos + 2, a + b + e, guid);
    StandsApart(d, pos + 2, a + b, e);
  }

  /** A "fmt " chunk. */
  lemma FmtRead(d: seq<Byte>, c: Container, p: Progress, fmt: Fmt, tail: Tail, h: ChunkHeader)
    requires Stands(d, p.pos, FmtFields(c, fmt) + tail.Bytes(c)) && ValidPiece(c, FmtPiece(fmt, tail))
    requires p.cursor == p.pos && |d| < TWO_TO_THE_64
    requires h.size == 16 + |tail.Bytes(c)| && p.pos + h.size + h.padding <= |d|
    ensures ReadFmtChunk(d, c, p, h) == More(Past(Learn(c, p, FmtPiece(fmt, tail)), h.size + h.padding))
  {
    hide Stands, FmtFields, Tail.Bytes, ReadExtension, ReadFmt;
    StandsApart(d, p.pos, FmtFields(c, fmt), tail.Bytes(c));
    FmtFieldsRead(d, c, p.pos, fmt);
    var q := p.(pos := p.pos + 16, cursor := p.pos + 16, foundFmt := true, fmt := fmt, subFormat := 0);
    if tail.NoTail? {
      NoTailBytes(c);
    } else {
      TailBytes(c, tail);
      TailRead(d, c, q, tail);
    }
  }

  lemma NoTailBytes(c: Container)
    ensures NoTail.Bytes(c) == []
  {
  }

  lemma TailBytes(c: Container, tail: Tail)
    requires !tail.NoTail?
    ensures |tail.Bytes(c)| >= 2
  {
  }

  /** A "fact" chunk. */
  lemma FactRead(d: seq<Byte>, c: Container, p: Progress, count: nat, rest: seq<Byte>, h: ChunkHeader)
    requires Stands(d, p.pos, Stored(c, count, CountBytes(c)) + rest) && ValidPiece(c, FactPiece(count, rest))
    requires p.cursor == p.pos && |d| < TWO_TO_THE_64
    requires h.size == CountBytes(c) + |rest| && p.pos + h.size + h.padding <= |d|
    ensures ReadFactChunk(d, c, p, h) == More(Past(Learn(c, p, FactPiece(count, rest)), h.size + h.padding))
  {
    hide Stands, Stored, FromLittle, FromBig, Wrap64;
    StandsApart(d, p.pos, Stored(c, count, CountBytes(c)), rest);
    NumberOf(d, c, p.pos, count, CountBytes(c));
  }

  /** What is done with a chunk is decided by its identifier. */
  lemma ChunkFollows(d: seq<Byte>, c: Container, p: Progress, h: ChunkHeader)
    requires p.cursor == p.pos <= |d| < TWO_TO_THE_64 && ReadHeader(d, c, p.pos) == Some(h)
    ensures p.pos + HeaderBytes(c) <= |d|
    ensures var q := Past(p, HeaderBytes(c));
      ReadChunk(d, c, p) == if h.id == FmtId(c) then ReadFmtChunk(d, c, q, h)
        else if h.id == DataId(c) then FoundData(q, h.size)
        else if h.id == FactId(c) then ReadFactChunk(d, c, q, h)
        else Forward(d, q, Wrap64(h.size + h.padding))
  {
    hide ReadHeader, ReadFmtChunk, ReadFactChunk, FmtId, DataId, FactId, Forward, Wrap64;
  }

  lemma OtherRead(d: seq<Byte>, p: Progress, n: nat)
    requires p.cursor == p.pos && p.pos + n <= |d| < TWO_TO_THE_64
    ensures Forward(d, p, Wrap64(n)) == More(Past(p, n))
  {
  }

  /** What a chunk says is what reading it finds, and reading it ends where it ends. */
  lemma PieceRead(d: seq<Byte>, c: Container, p: Progress, x: Piece)
    requires Stands(d, p.pos, PieceBytes(c, x)) && ValidPiece(c, x) && p.cursor == p.pos && |d| < TWO_TO_THE_64
    ensures p.pos + |PieceBytes(c, x)| <= |d|
    ensures ReadChunk(d, c, p) == More(Past(Learn(c, p, x), |PieceBytes(c, x)|))
  {
    hide Stands, ReadHeader, ReadChunk, ReadFmtChunk, ReadFactChunk, Forward, Wrap64, Stored, FmtId, DataId, FactId, FmtFields,
      Tail.Bytes, PieceBytes;
    IdsApart(c);
    PieceParts(d, c, p.pos, x);
    HeaderRead(d, c, p.pos, x);
    var n := |Body(c, x)|;
    var h := ChunkHeader(Id(c, x), n, Padding(c, n), p.pos + HeaderBytes(c));
    ChunkFollows(d, c, p, h);
    var q := Past(p, HeaderBytes(c));
    match x
    case FmtPiece(fmt, tail) => FmtRead(d, c, q, fmt, tail, h);
    case FactPiece(count, rest) => FactRead(d, c, q, count, rest, h);
    case OtherPiece(_, _) => OtherRead(d, q, h.size + h.padding);
  }

  lemma IdsApart(c: Container)
    ensures FmtId(c) != DataId(c) && FactId(c) != DataId(c) && FactId(c) != FmtId(c)
  {
    assert FmtId(c)[1] == 0x6D && DataId(c)[0] == 0x64 && FactId(c)[0] == 0x66 && FactId(c)[1] == 0x61 && FmtId(c)[0] == 0x66;
  }

  // All of them, up to the data.

  function PiecesBytes(c: Container, xs: seq<Piece>): seq<Byte> {
    if xs == [] then [] else PieceBytes(c, xs[0]) + PiecesBytes(c, xs[1..])
  }

  /** What the chunks say, the last of each kind. */
  function LearnAll(c: Container, p: Progress, xs: seq<Piece>): (r: Progress)
    ensures r.pos == p.pos && r.cursor == p.cursor
    decreases |xs|
  {
    if xs == [] then p else LearnAll(c, Learn(c, p, xs[0]), xs[1..])
  }

  predicate ValidPieces(c: Container, xs: seq<Piece>) {
    forall x <- xs :: ValidPiece(c, x)
  }

  lemma {:induction false} PiecesWalked(d: seq<Byte>, c: Container, p: Progress, xs: seq<Piece>, fuel: nat)
    requires Stands(d, p.pos, PiecesBytes(c, xs)) && ValidPieces(c, xs) && p.cursor == p.pos && |d| < TWO_TO_THE_64
    requires |xs| <= fuel
    ensures p.pos + |PiecesBytes(c, xs)| <= |d|
    ensures WalkChunks(d, c, p, fuel) == WalkChunks(d, c, Past(LearnAll(c, p, xs), |PiecesBytes(c, xs)|), fuel - |xs|)
    decreases |xs|
  {
    hide ReadChunk, PieceBytes, Stands, ValidPiece, Learn;
    StandsInside(d, p.pos, PiecesBytes(c, xs));
    if xs != [] {
      StandsApart(d, p.pos, PieceBytes(c, xs[0]), PiecesBytes(c, xs[1..]));
      PieceRead(d, c, p, xs[0]);
      var q := Past(Learn(c, p, xs[0]), |PieceBytes(c, xs[0])|);
      PiecesWalked(d, c, q, xs[1..], fuel - 1);
      LearnPast(c, Learn(c, p, xs[0]), |PieceBytes(c, xs[0])|, xs[1..]);
    }
  }

  lemma {:induction false} LearnPast(c: Container, p: Progress, n: nat, xs: seq<Piece>)
    ensures LearnAll(c, Past(p, n), xs) == Past(LearnAll(c, p, xs), n)
    decreases |xs|
  {
    if xs != [] {
      LearnPast(c, Learn(c, p, xs[0]), n, xs[1..]);
    }
  }

  // The start of a file, and its data.

  /** The header of a container; the sizes and the count are only used in an RF64 file, whose "ds64" chunk may go on
      with a table. */
  datatype Head = Head(riffSize: nat, dataSize: nat, count: nat, table: seq<Byte>) {
    predicate Valid(c: Container) {
      && riffSize < (if c == Riff || c == Rifx then TWO_TO_THE_32 else TWO_TO_THE_64) && (c == W64 ==> riffSize >= 80)
      && dataSize < TWO_TO_THE_64 && count < TWO_TO_THE_64 && |table| + 24 < TWO_TO_THE_32
    }

    function Ds64(): seq<Byte> {
      Little(riffSize, 8) + Little(dataSize, 8) + Little(count, 8) + table
    }

    function Bytes(c: Container): seq<Byte> {
      match c
      case Riff => RIFF_ID + Little(riffSize, 4) + WAVE_ID
      case Rifx => RIFX_ID + Big(riffSize, 4) + WAVE_ID
      case W64 => W64_RIFF_ID + Little(riffSize, 8) + W64_WAVE_ID
      case Rf64 =>
        RF64_ID + Little(MAX_UINT32, 4) + WAVE_ID + (DS64_ID + Little(24 + |table|, 4) + Ds64() + Zeros(PaddingRiff(24 + |table|)))
    }
  }

  lemma RiffRead(d: seq<Byte>, big: bool, head: Head)
    requires Stands(d, 0, head.Bytes(if big then Rifx else Riff))
    ensures ReadOpening(d) == Some(Opening(if big then Rifx else Riff, 12, 0, 0))
  {
    hide Stands, Little, Big, FromLittle;
    var id, size := (if big then RIFX_ID else RIFF_ID), if big then Big(head.riffSize, 4) else Little(head.riffSize, 4);
    StandsInside(d, 0, id + size + WAVE_ID);
    StandsApart(d, 0, id + size, WAVE_ID);
    StandsApart(d, 0, id, size);
    StandsTogether(d, 0, id, 0, 4);
    StandsTogether(d, 8, WAVE_ID, 0, 4);
    StartsApart(d);
  }

  lemma W64Read(d: seq<Byte>, head: Head)
    requires Stands(d, 0, head.Bytes(W64)) && head.Valid(W64)
    ensures ReadOpening(d) == Some(Opening(W64, 40, 0, 0))
  {
    hide Stands, Little, FromLittle;
    var size := Little(head.riffSize, 8);
    StandsInside(d, 0, W64_RIFF_ID + size + W64_WAVE_ID);
    StandsApart(d, 0, W64_RIFF_ID + size, W64_WAVE_ID);
    StandsApart(d, 0, W64_RIFF_ID, size);
    StandsTogether(d, 0, W64_RIFF_ID, 0, 16);
    StandsTogether(d, 16, size, 0, 8);
    StandsTogether(d, 24, W64_WAVE_ID, 0, 16);
    LittleSizes(head.riffSize);
    StandsTogether(d, 0, W64_RIFF_ID, 0, 4);
    StartsApart(d);
  }

  lemma Rf64Read(d: seq<Byte>, head: Head)
    requires Stands(d, 0, head.Bytes(Rf64)) && head.Valid(Rf64)
    ensures ReadOpening(d) == Some(Opening(Rf64, |head.Bytes(Rf64)|, head.dataSize, head.count))
  {
    hide Stands, Little, FromLittle, ReadDs64, Head.Ds64;
    var max, size, pad := Little(MAX_UINT32, 4), Little(24 + |head.table|, 4), Zeros(PaddingRiff(24 + |head.table|));
    var chunk := DS64_ID + size + head.Ds64() + pad;
    StandsInside(d, 0, RF64_ID + max + WAVE_ID + chunk);
    StandsApart(d, 0, RF64_ID + max + WAVE_ID, chunk);
    StandsApart(d, 0, RF64_ID + max, WAVE_ID);
    StandsApart(d, 0, RF64_ID, max);
    StandsTogether(d, 0, RF64_ID, 0, 4);
    StandsTogether(d, 4, max, 0, 4);
    StandsTogether(d, 8, WAVE_ID, 0, 4);
    LittleSizes(MAX_UINT32);
    StartsApart(d);
    Ds64Read(d, head);
  }

  lemma Ds64Read(d: seq<Byte>, head: Head)
    requires head.Valid(Rf64) && Stands(d, 12, DS64_ID + Little(24 + |head.table|, 4) + head.Ds64() + Zeros(PaddingRiff(24 + |head.table|)))
    ensures |d| >= 12
    ensures ReadDs64(d) == Some(Opening(Rf64, |head.Bytes(Rf64)|, head.dataSize, head.count))
  {
    hide Stands, Little, FromLittle, ReadHeader;
    var n := 24 + |head.table|;
    var size, pad := Little(n, 4), Zeros(PaddingRiff(n));
    StandsInside(d, 12, DS64_ID + size + head.Ds64() + pad);
    StandsApart(d, 12, DS64_ID + size + head.Ds64(), pad);
    StandsApart(d, 12, DS64_ID + size, head.Ds64());
    StandsApart(d, 12, DS64_ID, size);
    HeaderStands(d, Rf64, 12, DS64_ID, n);
    Ds64Numbers(d, head);
  }

  lemma Ds64Numbers(d: seq<Byte>, head: Head)
    requires head.Valid(Rf64) && Stands(d, 20, head.Ds64())
    ensures |d| >= 44 && FromLittle(d[28..36]) == head.dataSize && FromLittle(d[36..44]) == head.count
  {
    hide Stands, Little, FromLittle;
    var a, b, e := Little(head.riffSize, 8), Little(head.dataSize, 8), Little(head.count, 8);
    StandsInside(d, 20, a + b + e + head.table);
    StandsApart(d, 20, a + b + e, head.table);
    StandsApart(d, 20, a + b, e);
    StandsApart(d, 20, a, b);
    StandsTogether(d, 28, b, 0, 8);
    StandsTogether(d, 36, e, 0, 8);
    LittleSizes(head.dataSize);
    LittleSizes(head.count);
  }

  /** The start of the file is recognised, and the sizes of an RF64 file are taken from it. */
  lemma HeadRead(d: seq<Byte>, c: Container, head: Head)
    requires Stands(d, 0, head.Bytes(c)) && head.Valid(c)
    ensures ReadOpening(d) == Some(Opening(c, |head.Bytes(c)|, if c == Rf64 then head.dataSize else 0, if c == Rf64 then head.count else 0))
  {
    hide Stands, ReadOpening, Little, Big;
    match c
    case Riff => RiffRead(d, false, head);
    case Rifx => RiffRead(d, true, head);
    case W64 => W64Read(d, head);
    case Rf64 => Rf64Read(d, head);
  }

  /** The header of the data chunk. */
  function DataStartBytes(c: Container, size: nat): (r: seq<Byte>)
    ensures |r| == HeaderBytes(c)
  {
    DataId(c) + Stored(c, if c == W64 then size + 24 else size, SizeBytes(c))
  }

  lemma DataRead(d: seq<Byte>, c: Container, p: Progress, size: nat)
    requires Stands(d, p.pos, DataStartBytes(c, size)) && p.cursor == p.pos && |d| < TWO_TO_THE_64
    requires size < if c == W64 then 0x4000_0000_0000_0000 else TWO_TO_THE_32
    ensures p.pos + HeaderBytes(c) <= |d| && ReadChunk(d, c, p) == FoundData(Past(p, HeaderBytes(c)), size)
  {
    hide Stands, ReadHeader, ReadChunk, ReadFmtChunk, ReadFactChunk, FmtId, DataId, FactId;
    IdsApart(c);
    DataHeaderRead(d, c, p.pos, size);
    ChunkFollows(d, c, p, ChunkHeader(DataId(c), size, Padding(c, size), p.pos + HeaderBytes(c)));
  }

  lemma DataHeaderRead(d: seq<Byte>, c: Container, pos: nat, size: nat)
    requires Stands(d, pos, DataStartBytes(c, size)) && size < if c == W64 then 0x4000_0000_0000_0000 else TWO_TO_THE_32
    ensures pos + HeaderBytes(c) <= |d|
    ensures ReadHeader(d, c, pos) == Some(ChunkHeader(DataId(c), size, Padding(c, size), pos + HeaderBytes(c)))
  {
    hide Stands, Stored, Number, DataId;
    var stored := Stored(c, if c == W64 then size + 24 else size, SizeBytes(c));
    StandsInside(d, pos, DataId(c) + stored);
    StandsApart(d, pos, DataId(c), stored);
    NumberOf(d, c, pos + IdBytes(c), if c == W64 then size + 24 else size, SizeBytes(c));
    StandsTogether(d, pos, DataId(c), 0, IdBytes(c));
  }

  /** A file as far as the reader looks at it before the data. */
  function FrontBytes(c: Container, head: Head, xs: seq<Piece>, size: nat): seq<Byte> {
    head.Bytes(c) + PiecesBytes(c, xs) + DataStartBytes(c, size)
  }

  predicate ValidFront(c: Container, head: Head, xs: seq<Piece>, size: nat) {
    && head.Valid(c) && ValidPieces(c, xs)
    && size < if c == W64 then 0x4000_0000_0000_0000 else TWO_TO_THE_32
  }

  /** What the chunks of the file say. */
  function Learned(c: Container, head: Head, xs: seq<Piece>): Progress {
    LearnAll(c, Progress(|head.Bytes(c)|, |head.Bytes(c)|, false, NO_FMT, 0, if c == Rf64 then head.count else 0), xs)
  }

  lemma {:induction false} PiecesCounted(c: Container, xs: seq<Piece>)
    requires ValidPieces(c, xs)
    ensures |xs| <= |PiecesBytes(c, xs)|
    decreases |xs|
  {
    hide Stored, Body, ValidPiece;
    if xs != [] {
      PiecesCounted(c, xs[1..]);
    }
  }

  /** Whatever the file goes on with, parsing it comes to its data with what its chunks say. */
  lemma FrontParsed(d: seq<Byte>, c: Container, head: Head, xs: seq<Piece>, size: nat)
    requires Stands(d, 0, FrontBytes(c, head, xs, size)) && ValidFront(c, head, xs, size) && |d| < TWO_TO_THE_64
    ensures |FrontBytes(c, head, xs, size)| <= |d|
    ensures var n := |FrontBytes(c, head, xs, size)|;
      Parse(d) == Finish(d, c, Learned(c, head, xs).(pos := n, cursor := n), if c == Rf64 then head.dataSize else size)
  {
    hide Stands, Head.Bytes, PiecesBytes, DataStartBytes, ReadOpening, ReadChunk, Finish, LearnAll, ValidPiece, Head.Valid;
    StandsInside(d, 0, FrontBytes(c, head, xs, size));
    StandsApart(d, 0, head.Bytes(c) + PiecesBytes(c, xs), DataStartBytes(c, size));
    StandsApart(d, 0, head.Bytes(c), PiecesBytes(c, xs));
    HeadRead(d, c, head);
    PiecesCounted(c, xs);
    var m := |head.Bytes(c)|;
    var p := Progress(m, m, false, NO_FMT, 0, if c == Rf64 then head.count else 0);
    PiecesWalked(d, c, p, xs, Enough(d));
    DataRead(d, c, Past(LearnAll(c, p, xs), |PiecesBytes(c, xs)|), size);
  }
}
