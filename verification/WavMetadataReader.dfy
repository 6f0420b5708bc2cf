/** Reading metadata chunks (core-interface/wav/dr_wav.h: `drwav__metadata_process_chunk` in its reading stage), as functions
    of the chunks' bytes. */
module WavMetadataReader {
  import opened Bytes
  import opened WavFormat
  import opened WavRoundTrip
  import opened WavHeader
  import opened WavMetadata
  import opened WavMetadataChunks

  function LoopAt(b: seq<Byte>, k: nat): Loop
    requires k + 24 <= |b|
  {
    Loop(NumberAt(b, k, 4), NumberAt(b, k + 4, 4), NumberAt(b, k + 8, 4), NumberAt(b, k + 12, 4), NumberAt(b, k + 16, 4), NumberAt(b, k + 20, 4))
  }

  function LoopsAt(b: seq<Byte>, k: nat, n: nat): (r: seq<Loop>)
    requires k + 24 * n <= |b|
    ensures |r| == n
  {
    seq(n, i requires 0 <= i < n => LoopAt(b, k + 24 * i))
  }

  /** A "smpl" chunk: the number of loops must be the one the chunk has room for. */
  function ReadSmpl(b: seq<Byte>): Option<Metadata>
    requires |b| >= 36
  {
    var n, k := NumberAt(b, 28, 4), NumberAt(b, 32, 4);
    if n == (|b| - 36) / 24 && 36 + 24 * n + k == |b| then
      Some(Smpl(NumberAt(b, 0, 4), NumberAt(b, 4, 4), NumberAt(b, 8, 4), NumberAt(b, 12, 4), NumberAt(b, 16, 4),
                NumberAt(b, 20, 4), NumberAt(b, 24, 4), LoopsAt(b, 36, n), b[36 + 24 * n..]))
    else None
  }

  function PointAt(b: seq<Byte>, k: nat): CuePoint
    requires k + 24 <= |b|
  {
    CuePoint(NumberAt(b, k, 4), NumberAt(b, k + 4, 4), b[k + 8..k + 12], NumberAt(b, k + 12, 4), NumberAt(b, k + 16, 4), NumberAt(b, k + 20, 4))
  }

  function PointsAt(b: seq<Byte>, k: nat, n: nat): (r: seq<CuePoint>)
    requires k + 24 * n <= |b|
    ensures |r| == n
  {
    seq(n, i requires 0 <= i < n => PointAt(b, k + 24 * i))
  }

  function ReadCue(b: seq<Byte>): Option<Metadata>
    requires |b| >= 4
  {
    var n := NumberAt(b, 0, 4);
    if n == (|b| - 4) / 24 && 4 + 24 * n == |b| then Some(Cue(PointsAt(b, 4, n))) else None
  }

  function ReadAcid(b: seq<Byte>): Metadata
    requires |b| == 24
  {
    Acid(NumberAt(b, 0, 4), NumberAt(b, 4, 2), NumberAt(b, 6, 2), NumberAt(b, 8, 4), NumberAt(b, 12, 4), NumberAt(b, 16, 2),
         NumberAt(b, 18, 2), NumberAt(b, 20, 4))
  }

  /** A string of at most `n` bytes, up to its terminator. */
  function StringAt(b: seq<Byte>, k: nat, n: nat): seq<Byte>
    requires k + n <= |b|
  {
    b[k..k + LengthClamped(b[k..k + n], n)]
  }

  /** A "bext" chunk; the coding history is taken up to its first zero byte. */
  function ReadBext(b: seq<Byte>): Metadata
    requires |b| >= 602
  {
    Bext(StringAt(b, 0, 256), StringAt(b, 256, 32), StringAt(b, 288, 32), b[320..330], b[330..338],
         NumberAt(b, 342, 4) * TWO_TO_THE_32 + NumberAt(b, 338, 4), NumberAt(b, 346, 2), b[348..412],
         [NumberAt(b, 412, 2), NumberAt(b, 414, 2), NumberAt(b, 416, 2), NumberAt(b, 418, 2), NumberAt(b, 420, 2)],
         StringAt(b, 602, |b| - 602))
  }

  function ReadLabel(isNote: bool, b: seq<Byte>): Metadata
    requires |b| >= 4
  {
    LabelOrNote(isNote, NumberAt(b, 0, 4), if |b| > 4 then b[4..|b| - 1] else [])
  }

  function ReadRegion(b: seq<Byte>): Metadata
    requires |b| >= 20
  {
    Region(NumberAt(b, 0, 4), NumberAt(b, 4, 4), b[8..12], NumberAt(b, 12, 2), NumberAt(b, 14, 2), NumberAt(b, 16, 2),
           NumberAt(b, 18, 2), if |b| > 20 then b[20..|b| - 1] else [])
  }

  const ISFT_ID: seq<Byte> := [0x49, 0x53, 0x46, 0x54]
  const ICOP_ID: seq<Byte> := [0x49, 0x43, 0x4F, 0x50]
  const INAM_ID: seq<Byte> := [0x49, 0x4E, 0x41, 0x4D]
  const IART_ID: seq<Byte> := [0x49, 0x41, 0x52, 0x54]
  const ICMT_ID: seq<Byte> := [0x49, 0x43, 0x4D, 0x54]
  const ICRD_ID: seq<Byte> := [0x49, 0x43, 0x52, 0x44]
  const IGNR_ID: seq<Byte> := [0x49, 0x47, 0x4E, 0x52]
  const IPRD_ID: seq<Byte> := [0x49, 0x50, 0x52, 0x44]
  const ITRK_ID: seq<Byte> := [0x49, 0x54, 0x52, 0x4B]
  const SMALL_LIST_ID: seq<Byte> := [0x6C, 0x69, 0x73, 0x74]

  /** The identifiers of the texts of an INFO list. */
  predicate IsInfoId(id: seq<Byte>) {
    || id == ISFT_ID || id == ICOP_ID || id == INAM_ID || id == IART_ID || id == ICMT_ID
    || id == ICRD_ID || id == IGNR_ID || id == IPRD_ID || id == ITRK_ID
  }

  /** One entry of a list. */
  function ReadEntry(id: seq<Byte>, b: seq<Byte>, location: Location): seq<Metadata> {
    if id == LABL_ID || id == NOTE_ID then
      if |b| >= 4 then [ReadLabel(id == NOTE_ID, b)] else []
    else if id == LTXT_ID then
      if |b| >= 20 then [ReadRegion(b)] else []
    else if IsInfoId(id) then
      [InfoText(id, if |b| > 0 then b[..|b| - 1] else [])]
    else if location == InvalidLocation || !SkippedId(id) then []
    else [Unknown(id, location, b)]
  }

  /** The body of a list: which list it is, and its entries. */
  function ReadList(b: seq<Byte>, location: Location): seq<Metadata>
    decreases |b|
  {
    if |b| < 4 then []
    else if b[..4] == ADTL_ID then ReadList(b[4..], InsideAdtlList)
    else if b[..4] == INFO_ID then ReadList(b[4..], InsideInfoList)
    else if |b| < 8 || 8 + NumberAt(b, 4, 4) > |b| then []
    else
      var n := NumberAt(b, 4, 4);
      ReadEntry(b[..4], b[8..8 + n], location) + ReadList(if 8 + n + n % 2 <= |b| then b[8 + n + n % 2..] else [], location)
  }

  function Items(m: Option<Metadata>): seq<Metadata> {
    if m.Some? then [m.value] else []
  }

  /** What one chunk holds. */
  function ReadItems(id: seq<Byte>, b: seq<Byte>): seq<Metadata> {
    if id == SMPL_ID then (if |b| >= 36 then Items(ReadSmpl(b)) else [])
    else if id == INST_ID then (if |b| == 7 then [Inst(b)] else [])
    else if id == ACID_ID then (if |b| == 24 then [ReadAcid(b)] else [])
    else if id == CUE_ID then (if |b| >= 4 then Items(ReadCue(b)) else [])
    else if id == BEXT_ID then (if |b| >= 602 then [ReadBext(b)] else [])
    else if id == LIST_ID || id == SMALL_LIST_ID then ReadList(b, InvalidLocation)
    else if !SkippedId(id) then []
    else [Unknown(id, TopLevelChunk, b)]
  }

  /** One whole chunk. */
  function ReadPiece(e: seq<Byte>): seq<Metadata> {
    if |e| >= 8 && 8 + NumberAt(e, 4, 4) <= |e| then ReadItems(e[..4], e[8..8 + NumberAt(e, 4, 4)]) else []
  }

  /** What a sequence of whole chunks holds. */
  function ReadChunks(e: seq<Byte>): seq<Metadata>
    requires Whole(e)
    decreases |e|
  {
    if e == [] then []
    else ReadPiece(e[..ChunkEnd(e)]) + ReadChunks(e[ChunkEnd(e)..])
  }
}
