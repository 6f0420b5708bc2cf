/** The metadata chunks of a WAV file (core-interface/wav/dr_wav.h: `drwav__write_or_count_metadata`), which one
    routine either writes or only counts. */
module WavMetadata {
  import opened Bytes
  import opened WavFormat
  import opened WavWriter

  datatype Loop = Loop(cuePointId: nat, kind: nat, firstSampleOffset: nat, lastSampleOffset: nat, sampleFraction: nat, playCount: nat)

  datatype CuePoint = CuePoint(id: nat, playOrderPosition: nat, dataChunkId: seq<Byte>, chunkStart: nat, blockStart: nat, sampleOffset: nat)

  datatype Location = TopLevelChunk | InsideInfoList | InsideAdtlList | InvalidLocation

  /** `drwav_metadata`. Numbers of 32 bits that are floats in the source are their bits here. */
  datatype Metadata =
    | Smpl(manufacturerId: nat, productId: nat, samplePeriod: nat, midiUnityNote: nat, midiPitchFraction: nat,
           smpteFormat: nat, smpteOffset: nat, loops: seq<Loop>, specific: seq<Byte>)
    | Inst(settings: seq<Byte>)
    | Cue(points: seq<CuePoint>)
    | Acid(flags: nat, rootNote: nat, reserved1: nat, reserved2: nat, numBeats: nat, meterDenominator: nat,
           meterNumerator: nat, tempo: nat)
    | Bext(description: seq<Byte>, originatorName: seq<Byte>, originatorReference: seq<Byte>, date: seq<Byte>,
           time: seq<Byte>, timeReference: nat, version: nat, umid: seq<Byte>, loudness: seq<nat>, history: seq<Byte>)
    | Unknown(id: seq<Byte>, location: Location, data: seq<Byte>)
    | LabelOrNote(isNote: bool, cuePointId: nat, text: seq<Byte>)
    | Region(cuePointId: nat, sampleLength: nat, purposeId: seq<Byte>, country: nat, language: nat, dialect: nat,
             codePage: nat, text: seq<Byte>)
    | InfoText(infoId: seq<Byte>, text: seq<Byte>)
  {
    /** The arrays of fixed size have it. */
    predicate Valid() {
      match this
      case Inst(settings) => |settings| == 7
      case Cue(points) => forall p <- points :: |p.dataChunkId| == 4
      case Bext(_, _, _, date, time, _, _, umid, loudness, _) => |date| == 10 && |time| == 8 && |umid| == 64 && |loudness| == 5
      case Unknown(id, _, _) => |id| == 4
      case Region(_, _, purposeId, _, _, _, _, _) => |purposeId| == 4
      case InfoText(infoId, _) => |infoId| == 4
      case _ => true
    }

    predicate InInfoList() { InfoText? || (Unknown? && location == InsideInfoList) }

    predicate InAdtlList() { LabelOrNote? || Region? || (Unknown? && location == InsideAdtlList) }
  }

  const SMPL_ID: seq<Byte> := [0x73, 0x6D, 0x70, 0x6C]
  const INST_ID: seq<Byte> := [0x69, 0x6E, 0x73, 0x74]
  const CUE_ID: seq<Byte> := [0x63, 0x75, 0x65, 0x20]
  const ACID_ID: seq<Byte> := [0x61, 0x63, 0x69, 0x64]
  const BEXT_ID: seq<Byte> := [0x62, 0x65, 0x78, 0x74]
  const LIST_ID: seq<Byte> := [0x4C, 0x49, 0x53, 0x54]
  const INFO_ID: seq<Byte> := [0x49, 0x4E, 0x46, 0x4F]
  const ADTL_ID: seq<Byte> := [0x61, 0x64, 0x74, 0x6C]
  const LABL_ID: seq<Byte> := [0x6C, 0x61, 0x62, 0x6C]
  const NOTE_ID: seq<Byte> := [0x6E, 0x6F, 0x74, 0x65]
  const LTXT_ID: seq<Byte> := [0x6C, 0x74, 0x78, 0x74]

  function U16(x: nat): (r: seq<Byte>)
    ensures |r| == 2
  {
    Little(x, 2)
  }

  function U32(x: nat): (r: seq<Byte>)
    ensures |r| == 4
  {
    Little(x, 4)
  }

  /** A chunk: its identifier, the size of its body, the body, and a byte of padding after an odd size. */
  function Chunk(id: seq<Byte>, body: seq<Byte>): (r: seq<Byte>)
    ensures |r| == |id| + 4 + |body| + |body| % 2
  {
    id + U32(|body|) + body + Zeros(|body| % 2)
  }

  // The bodies of the chunks.

  function LoopBytes(l: Loop): (r: seq<Byte>)
    ensures |r| == 24
  {
    U32(l.cuePointId) + U32(l.kind) + U32(l.firstSampleOffset) + U32(l.lastSampleOffset) + U32(l.sampleFraction) + U32(l.playCount)
  }

  function LoopsBytes(ls: seq<Loop>): (r: seq<Byte>)
    ensures |r| == 24 * |ls|
  {
    if ls == [] then [] else LoopsBytes(ls[..|ls| - 1]) + LoopBytes(ls[|ls| - 1])
  }

  function SmplHeader(m: Metadata): (r: seq<Byte>)
    requires m.Smpl?
    ensures |r| == 36
  {
    U32(m.manufacturerId) + U32(m.productId) + U32(m.samplePeriod) + U32(m.midiUnityNote) + U32(m.midiPitchFraction)
    + U32(m.smpteFormat) + U32(m.smpteOffset) + U32(|m.loops|) + U32(|m.specific|)
  }

  function PointBytes(p: CuePoint): (r: seq<Byte>)
    requires |p.dataChunkId| == 4
    ensures |r| == 24
  {
    U32(p.id) + U32(p.playOrderPosition) + p.dataChunkId + U32(p.chunkStart) + U32(p.blockStart) + U32(p.sampleOffset)
  }

  function PointsBytes(ps: seq<CuePoint>): (r: seq<Byte>)
    requires forall p <- ps :: |p.dataChunkId| == 4
    ensures |r| == 24 * |ps|
  {
    if ps == [] then [] else PointsBytes(ps[..|ps| - 1]) + PointBytes(ps[|ps| - 1])
  }

  function AcidBody(m: Metadata): (r: seq<Byte>)
    requires m.Acid?
    ensures |r| == 24
  {
    U32(m.flags) + U16(m.rootNote) + U16(m.reserved1) + U32(m.reserved2) + U32(m.numBeats) + U16(m.meterDenominator)
    + U16(m.meterNumerator) + U32(m.tempo)
  }

  /** The length of a string up to its terminator, but no more than `n`. */
  function LengthClamped(s: seq<Byte>, n: nat): (r: nat)
    ensures r <= n && r <= |s| && (forall i | 0 <= i < r :: s[i] != 0) && (r < n && r < |s| ==> s[r] == 0)
  {
    if s == [] || n == 0 || s[0] == 0 then 0 else 1 + LengthClamped(s[1..], n - 1)
  }

  /** A string in a field of `n` bytes. */
  function Fixed(s: seq<Byte>, n: nat): (r: seq<Byte>)
    ensures |r| == n
  {
    s[..LengthClamped(s, n)] + Zeros(n - LengthClamped(s, n))
  }

  function BextNames(m: Metadata): (r: seq<Byte>)
    requires m.Bext?
    ensures |r| == 320
  {
    Fixed(m.description, 256) + Fixed(m.originatorName, 32) + Fixed(m.originatorReference, 32)
  }

  function BextTimes(m: Metadata): (r: seq<Byte>)
    requires m.Bext? && m.Valid()
    ensures |r| == 28
  {
    m.date + m.time + U32(m.timeReference % TWO_TO_THE_32) + U32(m.timeReference / TWO_TO_THE_32) + U16(m.version)
  }

  function BextRest(m: Metadata): (r: seq<Byte>)
    requires m.Bext? && m.Valid()
    ensures |r| == 254
  {
    m.umid + U16(m.loudness[0]) + U16(m.loudness[1]) + U16(m.loudness[2]) + U16(m.loudness[3]) + U16(m.loudness[4]) + Zeros(180)
  }

  /** What the first pass emits for one item. */
  function TopLevel(m: Metadata): seq<Byte>
    requires m.Valid()
  {
    match m
    case Smpl(_, _, _, _, _, _, _, loops, specific) => Chunk(SMPL_ID, SmplHeader(m) + LoopsBytes(loops) + specific)
    case Inst(settings) => Chunk(INST_ID, settings)
    case Cue(points) => Chunk(CUE_ID, U32(|points|) + PointsBytes(points))
    case Acid(_, _, _, _, _, _, _, _) => Chunk(ACID_ID, AcidBody(m))
    case Bext(_, _, _, _, _, _, _, _, _, history) => Chunk(BEXT_ID, BextNames(m) + BextTimes(m) + BextRest(m) + history)
    case Unknown(id, location, data) => if location == TopLevelChunk then Chunk(id, data) else []
    case _ => []
  }

  /** A text with its terminator. */
  function Terminated(s: seq<Byte>): (r: seq<Byte>)
    ensures |r| == |s| + 1
  {
    s + [0]
  }

  /** What the INFO list gets for one item; nothing for an empty one. */
  function InfoEntry(m: Metadata): seq<Byte>
    requires m.Valid()
  {
    match m
    case InfoText(infoId, text) => if text != [] then Chunk(infoId, Terminated(text)) else []
    case Unknown(id, location, data) => if location == InsideInfoList && data != [] then Chunk(id, data) else []
    case _ => []
  }

  function RegionHeader(m: Metadata): (r: seq<Byte>)
    requires m.Region? && m.Valid()
    ensures |r| == 20
  {
    U32(m.cuePointId) + U32(m.sampleLength) + m.purposeId + U16(m.country) + U16(m.language) + U16(m.dialect) + U16(m.codePage)
  }

  /** What the "adtl" list gets for one item; nothing for an empty label or note. */
  function AdtlEntry(m: Metadata): seq<Byte>
    requires m.Valid()
  {
    match m
    case LabelOrNote(isNote, cuePointId, text) =>
      if text != [] then Chunk(if isNote then NOTE_ID else LABL_ID, U32(cuePointId) + Terminated(text)) else []
    case Region(_, _, _, _, _, _, _, text) => Chunk(LTXT_ID, RegionHeader(m) + if text != [] then Terminated(text) else [])
    case Unknown(id, location, data) => if location == InsideAdtlList then Chunk(id, data) else []
    case _ => []
  }

  predicate AllValid(ms: seq<Metadata>) {
    forall m <- ms :: m.Valid()
  }

  function TopLevels(ms: seq<Metadata>): seq<Byte>
    requires AllValid(ms)
  {
    if ms == [] then [] else TopLevels(ms[..|ms| - 1]) + TopLevel(ms[|ms| - 1])
  }

  function InfoEntries(ms: seq<Metadata>): seq<Byte>
    requires AllValid(ms)
  {
    if ms == [] then [] else InfoEntries(ms[..|ms| - 1]) + InfoEntry(ms[|ms| - 1])
  }

  function AdtlEntries(ms: seq<Metadata>): seq<Byte>
    requires AllValid(ms)
  {
    if ms == [] then [] else AdtlEntries(ms[..|ms| - 1]) + AdtlEntry(ms[|ms| - 1])
  }

  // The sizes the lists are given. They are computed from the items, not from what is emitted.

  function Even(x: nat): (r: nat)
    ensures r % 2 == 0 && x <= r <= x + 1
  {
    x + x % 2
  }

  function InfoCounted(m: Metadata): nat {
    match m
    case InfoText(_, text) => 8 + |text| + 1
    case Unknown(_, location, data) => if location == InsideInfoList then 8 + |data| else 0
    case _ => 0
  }

  function AdtlCounted(m: Metadata): nat {
    match m
    case LabelOrNote(_, _, text) => 8 + 4 + if |text| > 0 then |text| + 1 else 0
    case Region(_, _, _, _, _, _, _, text) => 8 + 20 + if |text| > 0 then |text| + 1 else 0
    case Unknown(_, location, data) => if location == InsideAdtlList then 8 + |data| else 0
    case _ => 0
  }

  function InfoSize(ms: seq<Metadata>): (r: nat)
    ensures r % 2 == 0
  {
    if ms == [] then 4 else Even(InfoSize(ms[..|ms| - 1]) + InfoCounted(ms[|ms| - 1]))
  }

  function AdtlSize(ms: seq<Metadata>): (r: nat)
    ensures r % 2 == 0
  {
    if ms == [] then 4 else Even(AdtlSize(ms[..|ms| - 1]) + AdtlCounted(ms[|ms| - 1]))
  }

  function List(id: seq<Byte>, size: nat, entries: seq<Byte>): (r: seq<Byte>)
    ensures |r| == 8 + |id| + |entries|
  {
    LIST_ID + U32(size) + id + entries
  }

  predicate HasInfo(ms: seq<Metadata>) { exists m <- ms :: m.InInfoList() }

  predicate HasAdtl(ms: seq<Metadata>) { exists m <- ms :: m.InAdtlList() }

  /** Everything the routine emits. */
  function MetadataBytes(ms: seq<Metadata>): seq<Byte>
    requires AllValid(ms)
  {
    TopLevels(ms)
    + (if HasInfo(ms) then List(INFO_ID, InfoSize(ms), InfoEntries(ms)) else [])
    + if HasAdtl(ms) then List(ADTL_ID, AdtlSize(ms), AdtlEntries(ms)) else []
  }
}
