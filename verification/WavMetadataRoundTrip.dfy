/** Metadata that was written is read back (core-interface/wav/dr_wav.h: `drwav__write_or_count_metadata` and
    `drwav__metadata_process_chunk`), field by field. */
module WavMetadataRoundTrip {
  import opened Bytes
  import opened WavFormat
  import opened WavWriter
  import opened WavRoundTrip
  import opened WavHeader
  import opened WavMetadata
  import opened WavMetadataWriter
  import opened WavMetadataChunks
  import opened WavMetadataReader

  predicate Is16(x: nat) { x < 0x1_0000 }

  predicate Is32(x: nat) { x < TWO_TO_THE_32 }

  predicate LoopFits(l: Loop) {
    Is32(l.cuePointId) && Is32(l.kind) && Is32(l.firstSampleOffset) && Is32(l.lastSampleOffset) && Is32(l.sampleFraction) && Is32(l.playCount)
  }

  predicate PointFits(p: CuePoint) {
    Is32(p.id) && Is32(p.playOrderPosition) && Is32(p.chunkStart) && Is32(p.blockStart) && Is32(p.sampleOffset)
  }

  /** The numbers of an item fit the fields of the source's structures. */
  predicate Fits(m: Metadata) {
    match m
    case Smpl(a, b, c, d, e, f, g, loops, specific) =>
      Is32(a) && Is32(b) && Is32(c) && Is32(d) && Is32(e) && Is32(f) && Is32(g) && Is32(|loops|) && Is32(|specific|)
      && forall l <- loops :: LoopFits(l)
    case Inst(_) => true
    case Cue(points) => Is32(|points|) && forall p <- points :: PointFits(p)
    case Acid(flags, rootNote, reserved1, reserved2, numBeats, meterDenominator, meterNumerator, tempo) =>
      Is32(flags) && Is16(rootNote) && Is16(reserved1) && Is32(reserved2) && Is32(numBeats) && Is16(meterDenominator)
      && Is16(meterNumerator) && Is32(tempo)
    case Bext(_, _, _, _, _, timeReference, version, _, loudness, _) =>
      timeReference < TWO_TO_THE_64 && Is16(version) && forall x <- loudness :: Is16(x)
    case Unknown(_, _, _) => true
    case LabelOrNote(_, cuePointId, _) => Is32(cuePointId)
    case Region(cuePointId, sampleLength, _, country, language, dialect, codePage, _) =>
      Is32(cuePointId) && Is32(sampleLength) && Is16(country) && Is16(language) && Is16(dialect) && Is16(codePage)
    case InfoText(_, _) => true
  }

  // Fields.

  lemma Number32(b: seq<Byte>, k: nat, x: nat)
    requires Stands(b, k, U32(x)) && Is32(x)
    ensures k + 4 <= |b| && NumberAt(b, k, 4) == x
  {
    hide NumberAt;
    NumberStands(b, k, x, 4);
  }

  lemma Number16(b: seq<Byte>, k: nat, x: nat)
    requires Stands(b, k, U16(x)) && Is16(x)
    ensures k + 2 <= |b| && NumberAt(b, k, 2) == x
  {
    hide NumberAt;
    NumberStands(b, k, x, 2);
  }

  lemma LoopStands(b: seq<Byte>, k: nat, l: Loop)
    requires Stands(b, k, LoopBytes(l)) && LoopFits(l)
    ensures k + 24 <= |b| && LoopAt(b, k) == l
  {
    hide Stands, U32, NumberAt;
    var c, d, e, f, g, h := U32(l.cuePointId), U32(l.kind), U32(l.firstSampleOffset), U32(l.lastSampleOffset),
      U32(l.sampleFraction), U32(l.playCount);
    StandsApart(b, k, c + d + e + f + g, h);
    StandsApart(b, k, c + d + e + f, g);
    StandsApart(b, k, c + d + e, f);
    StandsApart(b, k, c + d, e);
    StandsApart(b, k, c, d);
    Number32(b, k, l.cuePointId);
    Number32(b, k + 4, l.kind);
    Number32(b, k + 8, l.firstSampleOffset);
    Number32(b, k + 12, l.lastSampleOffset);
    Number32(b, k + 16, l.sampleFraction);
    Number32(b, k + 20, l.playCount);
  }

  lemma {:induction false} LoopsStand(b: seq<Byte>, k: nat, ls: seq<Loop>)
    requires Stands(b, k, LoopsBytes(ls)) && forall l <- ls :: LoopFits(l)
    ensures k + 24 * |ls| <= |b| && LoopsAt(b, k, |ls|) == ls
  {
    hide LoopBytes, LoopFits, Stands, LoopAt, LoopsAt;
    StandsInside(b, k, LoopsBytes(ls));
    if ls == [] {
      NoLoops(b, k);
    } else {
      var n := |ls| - 1;
      StandsApart(b, k, LoopsBytes(ls[..n]), LoopBytes(ls[n]));
      LoopsStand(b, k, ls[..n]);
      LoopStands(b, k + 24 * n, ls[n]);
      OneMoreLoop(b, k, n);
    }
  }

  lemma NoLoops(b: seq<Byte>, k: nat)
    requires k <= |b|
    ensures LoopsAt(b, k, 0) == []
  {
  }

  lemma OneMoreLoop(b: seq<Byte>, k: nat, n: nat)
    requires k + 24 * n + 24 <= |b|
    ensures LoopsAt(b, k, n + 1) == LoopsAt(b, k, n) + [LoopAt(b, k + 24 * n)]
  {
    hide LoopAt;
  }

  lemma PointStands(b: seq<Byte>, k: nat, p: CuePoint)
    requires |p.dataChunkId| == 4 && Stands(b, k, PointBytes(p)) && PointFits(p)
    ensures k + 24 <= |b| && PointAt(b, k) == p
  {
    hide Stands, U32, NumberAt;
    var c, d, e, f, g, h := U32(p.id), U32(p.playOrderPosition), p.dataChunkId, U32(p.chunkStart), U32(p.blockStart), U32(p.sampleOffset);
    StandsApart(b, k, c + d + e + f + g, h);
    StandsApart(b, k, c + d + e + f, g);
    StandsApart(b, k, c + d + e, f);
    StandsApart(b, k, c + d, e);
    StandsApart(b, k, c, d);
    Number32(b, k, p.id);
    Number32(b, k + 4, p.playOrderPosition);
    Number32(b, k + 12, p.chunkStart);
    Number32(b, k + 16, p.blockStart);
    Number32(b, k + 20, p.sampleOffset);
    StandsTogether(b, k + 8, e, 0, 4);
  }

  lemma {:induction false} PointsStand(b: seq<Byte>, k: nat, ps: seq<CuePoint>)
    requires (forall p <- ps :: |p.dataChunkId| == 4) && Stands(b, k, PointsBytes(ps)) && forall p <- ps :: PointFits(p)
    ensures k + 24 * |ps| <= |b| && PointsAt(b, k, |ps|) == ps
  {
    hide PointBytes, PointFits, Stands, PointAt, PointsAt;
    StandsInside(b, k, PointsBytes(ps));
    if ps == [] {
      NoPoints(b, k);
    } else {
      var n := |ps| - 1;
      StandsApart(b, k, PointsBytes(ps[..n]), PointBytes(ps[n]));
      PointsStand(b, k, ps[..n]);
      PointStands(b, k + 24 * n, ps[n]);
      OneMorePoint(b, k, n);
    }
  }

  lemma NoPoints(b: seq<Byte>, k: nat)
    requires k <= |b|
    ensures PointsAt(b, k, 0) == []
  {
  }

  lemma OneMorePoint(b: seq<Byte>, k: nat, n: nat)
    requires k + 24 * n + 24 <= |b|
    ensures PointsAt(b, k, n + 1) == PointsAt(b, k, n) + [PointAt(b, k + 24 * n)]
  {
    hide PointAt;
  }

  lemma SmplHeaderStands(b: seq<Byte>, m: Metadata)
    requires m.Smpl? && Fits(m) && Stands(b, 0, SmplHeader(m))
    ensures |b| >= 36
    ensures NumberAt(b, 0, 4) == m.manufacturerId && NumberAt(b, 4, 4) == m.productId && NumberAt(b, 8, 4) == m.samplePeriod
    ensures NumberAt(b, 12, 4) == m.midiUnityNote && NumberAt(b, 16, 4) == m.midiPitchFraction
    ensures NumberAt(b, 20, 4) == m.smpteFormat && NumberAt(b, 24, 4) == m.smpteOffset
    ensures NumberAt(b, 28, 4) == |m.loops| && NumberAt(b, 32, 4) == |m.specific|
  {
    hide Stands, U32, NumberAt;
    var c, d, e, f, g, h, i, j, k := U32(m.manufacturerId), U32(m.productId), U32(m.samplePeriod), U32(m.midiUnityNote),
      U32(m.midiPitchFraction), U32(m.smpteFormat), U32(m.smpteOffset), U32(|m.loops|), U32(|m.specific|);
    StandsInside(b, 0, SmplHeader(m));
    StandsApart(b, 0, c + d + e + f + g + h + i + j, k);
    StandsApart(b, 0, c + d + e + f + g + h + i, j);
    StandsApart(b, 0, c + d + e + f + g + h, i);
    StandsApart(b, 0, c + d + e + f + g, h);
    StandsApart(b, 0, c + d + e + f, g);
    StandsApart(b, 0, c + d + e, f);
    StandsApart(b, 0, c + d, e);
    StandsApart(b, 0, c, d);
    Number32(b, 0, m.manufacturerId);
    Number32(b, 4, m.productId);
    Number32(b, 8, m.samplePeriod);
    Number32(b, 12, m.midiUnityNote);
    Number32(b, 16, m.midiPitchFraction);
    Number32(b, 20, m.smpteFormat);
    Number32(b, 24, m.smpteOffset);
    Number32(b, 28, |m.loops|);
    Number32(b, 32, |m.specific|);
  }

  /** A "smpl" chunk comes back whole, exactly when it has less sampler-specific data than a loop has bytes: the reader
      takes more for loops that are not there, and gives the chunk up. */
  lemma SmplRead(m: Metadata)
    requires m.Smpl? && Fits(m)
    ensures var b := SmplHeader(m) + LoopsBytes(m.loops) + m.specific;
      ReadSmpl(b) == if |m.specific| < 24 then Some(m) else None
  {
    hide Stands, U32, NumberAt, SmplHeader, LoopsBytes, LoopsAt;
    var b := SmplHeader(m) + LoopsBytes(m.loops) + m.specific;
    StandsWhole(b);
    StandsApart(b, 0, SmplHeader(m) + LoopsBytes(m.loops), m.specific);
    StandsApart(b, 0, SmplHeader(m), LoopsBytes(m.loops));
    SmplHeaderStands(b, m);
    LoopsStand(b, 36, m.loops);
    assert b[36 + 24 * |m.loops|..] == m.specific;
    assert (|b| - 36) / 24 == |m.loops| + |m.specific| / 24;
  }

  lemma CueRead(points: seq<CuePoint>)
    requires Cue(points).Valid() && Fits(Cue(points))
    ensures ReadCue(U32(|points|) + PointsBytes(points)) == Some(Cue(points))
  {
    hide Stands, U32, NumberAt, PointsBytes, PointsAt;
    var b := U32(|points|) + PointsBytes(points);
    StandsWhole(b);
    StandsApart(b, 0, U32(|points|), PointsBytes(points));
    Number32(b, 0, |points|);
    PointsStand(b, 4, points);
  }

  lemma AcidRead(m: Metadata)
    requires m.Acid? && Fits(m)
    ensures ReadAcid(AcidBody(m)) == m
  {
    hide Stands, U32, U16, NumberAt;
    var c, d, e, f, g, h, i, j := U32(m.flags), U16(m.rootNote), U16(m.reserved1), U32(m.reserved2), U32(m.numBeats),
      U16(m.meterDenominator), U16(m.meterNumerator), U32(m.tempo);
    var b := AcidBody(m);
    StandsWhole(b);
    StandsApart(b, 0, c + d + e + f + g + h + i, j);
    StandsApart(b, 0, c + d + e + f + g + h, i);
    StandsApart(b, 0, c + d + e + f + g, h);
    StandsApart(b, 0, c + d + e + f, g);
    StandsApart(b, 0, c + d + e, f);
    StandsApart(b, 0, c + d, e);
    StandsApart(b, 0, c, d);
    Number32(b, 0, m.flags);
    Number16(b, 4, m.rootNote);
    Number16(b, 6, m.reserved1);
    Number32(b, 8, m.reserved2);
    Number32(b, 12, m.numBeats);
    Number16(b, 16, m.meterDenominator);
    Number16(b, 18, m.meterNumerator);
    Number32(b, 20, m.tempo);
  }

  // Strings of a fixed size.

  /** A string as it fits a field of `n` bytes. */
  function Cut(s: seq<Byte>, n: nat): seq<Byte> {
    s[..LengthClamped(s, n)]
  }

  lemma {:induction false} LengthOfFixed(s: seq<Byte>, n: nat)
    ensures LengthClamped(Fixed(s, n), n) == LengthClamped(s, n)
  {
    hide Fixed;
    if n > 0 {
      FixedStarts(s, n);
    }
    if s != [] && n > 0 && s[0] != 0 {
      LengthOfFixed(s[1..], n - 1);
    }
  }

  lemma FixedStarts(s: seq<Byte>, n: nat)
    requires n > 0
    ensures s == [] || s[0] == 0 ==> Fixed(s, n)[0] == 0
    ensures s != [] && s[0] != 0 ==> Fixed(s, n)[0] == s[0] && Fixed(s, n)[1..] == Fixed(s[1..], n - 1)
  {
    if s != [] && s[0] != 0 {
      var len := LengthClamped(s[1..], n - 1);
      assert s[..len + 1] == [s[0]] + s[1..][..len];
    }
  }

  lemma FixedRead(b: seq<Byte>, k: nat, s: seq<Byte>, n: nat)
    requires Stands(b, k, Fixed(s, n))
    ensures k + n <= |b| && StringAt(b, k, n) == Cut(s, n)
  {
    hide LengthClamped, Stands;
    StandsInside(b, k, Fixed(s, n));
    LengthOfFixed(s, n);
    var len := LengthClamped(s, n);
    StandsTogether(b, k, Fixed(s, n), 0, n);
    StandsTogether(b, k, Fixed(s, n), 0, len);
    assert Fixed(s, n)[0..len] == s[..len] && Fixed(s, n)[0..n] == Fixed(s, n);
  }

  lemma BextNamesRead(b: seq<Byte>, m: Metadata)
    requires m.Bext? && Stands(b, 0, BextNames(m))
    ensures |b| >= 320
    ensures StringAt(b, 0, 256) == Cut(m.description, 256) && StringAt(b, 256, 32) == Cut(m.originatorName, 32)
    ensures StringAt(b, 288, 32) == Cut(m.originatorReference, 32)
  {
    hide Stands, Fixed, StringAt, Cut;
    var c, d, e := Fixed(m.description, 256), Fixed(m.originatorName, 32), Fixed(m.originatorReference, 32);
    StandsInside(b, 0, c + d + e);
    StandsApart(b, 0, c + d, e);
    StandsApart(b, 0, c, d);
    FixedRead(b, 0, m.description, 256);
    FixedRead(b, 256, m.originatorName, 32);
    FixedRead(b, 288, m.originatorReference, 32);
  }

  lemma BextTimesRead(b: seq<Byte>, m: Metadata)
    requires m.Bext? && m.Valid() && Fits(m) && Stands(b, 320, BextTimes(m))
    ensures |b| >= 348
    ensures b[320..330] == m.date && b[330..338] == m.time && NumberAt(b, 346, 2) == m.version
    ensures NumberAt(b, 342, 4) * TWO_TO_THE_32 + NumberAt(b, 338, 4) == m.timeReference
  {
    hide Stands, U32, U16, NumberAt;
    var low, high := m.timeReference % TWO_TO_THE_32, m.timeReference / TWO_TO_THE_32;
    var c, d, e, f, g := m.date, m.time, U32(low), U32(high), U16(m.version);
    StandsInside(b, 320, c + d + e + f + g);
    StandsApart(b, 320, c + d + e + f, g);
    StandsApart(b, 320, c + d + e, f);
    StandsApart(b, 320, c + d, e);
    StandsApart(b, 320, c, d);
    StandsTogether(b, 320, c, 0, 10);
    StandsTogether(b, 330, d, 0, 8);
    Number32(b, 338, low);
    Number32(b, 342, high);
    Number16(b, 346, m.version);
  }

  lemma BextRestRead(b: seq<Byte>, m: Metadata)
    requires m.Bext? && m.Valid() && Fits(m) && Stands(b, 348, BextRest(m))
    ensures |b| >= 602 && b[348..412] == m.umid
    ensures m.loudness == [NumberAt(b, 412, 2), NumberAt(b, 414, 2), NumberAt(b, 416, 2), NumberAt(b, 418, 2), NumberAt(b, 420, 2)]
  {
    hide Stands, U16, NumberAt, Zeros;
    var l := m.loudness;
    var c, d, e, f, g, h, z := m.umid, U16(l[0]), U16(l[1]), U16(l[2]), U16(l[3]), U16(l[4]), Zeros(180);
    StandsInside(b, 348, c + d + e + f + g + h + z);
    StandsApart(b, 348, c + d + e + f + g + h, z);
    StandsApart(b, 348, c + d + e + f + g, h);
    StandsApart(b, 348, c + d + e + f, g);
    StandsApart(b, 348, c + d + e, f);
    StandsApart(b, 348, c + d, e);
    StandsApart(b, 348, c, d);
    StandsTogether(b, 348, c, 0, 64);
    Number16(b, 412, l[0]);
    Number16(b, 414, l[1]);
    Number16(b, 416, l[2]);
    Number16(b, 418, l[3]);
    Number16(b, 420, l[4]);
  }

  /** What comes back of a "bext" chunk: its strings up to their first zero byte, and as far as their fields go. */
  function CutBext(m: Metadata): Metadata
    requires m.Bext?
  {
    m.(description := Cut(m.description, 256), originatorName := Cut(m.originatorName, 32),
       originatorReference := Cut(m.originatorReference, 32), history := Cut(m.history, |m.history|))
  }

  lemma BextRead(m: Metadata)
    requires m.Bext? && m.Valid() && Fits(m)
    ensures ReadBext(BextNames(m) + BextTimes(m) + BextRest(m) + m.history) == CutBext(m)
  {
    hide Stands, NumberAt, BextNames, BextTimes, BextRest, LengthClamped;
    var names, times, rest := BextNames(m), BextTimes(m), BextRest(m);
    var b := names + times + rest + m.history;
    StandsWhole(b);
    StandsApart(b, 0, names + times + rest, m.history);
    StandsApart(b, 0, names + times, rest);
    StandsApart(b, 0, names, times);
    BextNamesRead(b, m);
    BextTimesRead(b, m);
    BextRestRead(b, m);
    assert b[602..] == m.history == b[602..602 + |m.history|];
  }

  lemma LabelRead(m: Metadata)
    requires m.LabelOrNote? && Fits(m) && m.text != []
    ensures ReadLabel(m.isNote, U32(m.cuePointId) + Terminated(m.text)) == m
  {
    hide Stands, U32, NumberAt;
    var b := U32(m.cuePointId) + Terminated(m.text);
    StandsWhole(b);
    StandsApart(b, 0, U32(m.cuePointId), Terminated(m.text));
    Number32(b, 0, m.cuePointId);
    assert b[4..|b| - 1] == m.text;
  }

  lemma RegionHeaderRead(b: seq<Byte>, m: Metadata)
    requires m.Region? && m.Valid() && Fits(m) && Stands(b, 0, RegionHeader(m))
    ensures |b| >= 20 && b[8..12] == m.purposeId
    ensures NumberAt(b, 0, 4) == m.cuePointId && NumberAt(b, 4, 4) == m.sampleLength && NumberAt(b, 12, 2) == m.country
    ensures NumberAt(b, 14, 2) == m.language && NumberAt(b, 16, 2) == m.dialect && NumberAt(b, 18, 2) == m.codePage
  {
    hide Stands, U32, U16, NumberAt;
    var c, d, e, f, g, h, i := U32(m.cuePointId), U32(m.sampleLength), m.purposeId, U16(m.country), U16(m.language),
      U16(m.dialect), U16(m.codePage);
    StandsInside(b, 0, c + d + e + f + g + h + i);
    StandsApart(b, 0, c + d + e + f + g + h, i);
    StandsApart(b, 0, c + d + e + f + g, h);
    StandsApart(b, 0, c + d + e + f, g);
    StandsApart(b, 0, c + d + e, f);
    StandsApart(b, 0, c + d, e);
    StandsApart(b, 0, c, d);
    Number32(b, 0, m.cuePointId);
    Number32(b, 4, m.sampleLength);
    StandsTogether(b, 8, e, 0, 4);
    Number16(b, 12, m.country);
    Number16(b, 14, m.language);
    Number16(b, 16, m.dialect);
    Number16(b, 18, m.codePage);
  }

  lemma RegionRead(m: Metadata)
    requires m.Region? && m.Valid() && Fits(m)
    ensures ReadRegion(RegionHeader(m) + if m.text != [] then Terminated(m.text) else []) == m
  {
    hide Stands, NumberAt, RegionHeader;
    var text := if m.text != [] then Terminated(m.text) else [];
    var b := RegionHeader(m) + text;
    StandsWhole(b);
    StandsApart(b, 0, RegionHeader(m), text);
    RegionHeaderRead(b, m);
    if m.text != [] {
      assert b[20..|b| - 1] == m.text;
    }
  }

  // Whole chunks.

  /** Items with an identifier of their own use none the reader takes for something else. */
  predicate OwnId(m: Metadata) {
    match m
    case Unknown(id, TopLevelChunk, _) => SkippedId(id) && !IsTopId(id)
    case Unknown(id, _, _) => SkippedId(id) && !IsEntryId(id)
    case InfoText(id, _) => IsInfoId(id)
    case _ => true
  }

  predicate IsTopId(id: seq<Byte>) {
    id == SMPL_ID || id == INST_ID || id == ACID_ID || id == CUE_ID || id == BEXT_ID || id == LIST_ID || id == SMALL_LIST_ID
  }

  predicate IsEntryId(id: seq<Byte>) {
    id == LABL_ID || id == NOTE_ID || id == LTXT_ID || IsInfoId(id) || id == ADTL_ID || id == INFO_ID
  }

  predicate IsTop(m: Metadata) {
    m.Smpl? || m.Inst? || m.Cue? || m.Acid? || m.Bext? || (m.Unknown? && m.location == TopLevelChunk)
  }

  /** What comes back of an item of the first pass. */
  function Returned(m: Metadata): seq<Metadata> {
    match m
    case Smpl(_, _, _, _, _, _, _, _, specific) => if |specific| < 24 then [m] else []
    case Bext(_, _, _, _, _, _, _, _, _, _) => [CutBext(m)]
    case _ => [m]
  }

  lemma ChunkParts(id: seq<Byte>, body: seq<Byte>, rest: seq<Byte>)
    requires |id| == 4 && |body| < TWO_TO_THE_32
    ensures var e := Chunk(id, body) + rest;
      && NumberAt(e, 4, 4) == |body| && e[..4] == id && e[8..8 + |body|] == body
      && |Chunk(id, body)| == 8 + |body| + |body| % 2 && e[8 + |body| + |body| % 2..] == rest
  {
    hide NumberAt, U32;
    var pad := Zeros(|body| % 2);
    var e := Chunk(id, body) + rest;
    assert e == id + U32(|body|) + body + (pad + rest);
    StandsWhole(e);
    StandsApart(e, 0, id + U32(|body|) + body, pad + rest);
    StandsApart(e, 0, id + U32(|body|), body);
    StandsApart(e, 0, id, U32(|body|));
    Number32(e, 4, |body|);
  }

  lemma ChunkRead(id: seq<Byte>, body: seq<Byte>)
    requires |id| == 4 && |body| < TWO_TO_THE_32
    ensures ReadPiece(Chunk(id, body)) == ReadItems(id, body)
  {
    hide NumberAt, ReadItems, Chunk;
    ChunkParts(id, body, []);
    assert Chunk(id, body) + [] == Chunk(id, body);
  }

  lemma TopIdsApart()
    ensures SMPL_ID[0] == 0x73 && INST_ID[0] == 0x69 && ACID_ID[0] == 0x61 && CUE_ID[0] == 0x63 && BEXT_ID[0] == 0x62 && LIST_ID[0] == 0x4C
  {
  }

  /** Reading an item's chunk gives the item back. */
  lemma PieceRead(m: Metadata)
    requires m.Valid() && Fits(m) && OwnId(m) && IsTop(m) && |TopLevel(m)| < TWO_TO_THE_32
    ensures ReadPiece(TopLevel(m)) == Returned(m)
  {
    hide ReadPiece, SmplHeader, LoopsBytes, PointsBytes, AcidBody, BextNames, BextTimes, BextRest, U32, Zeros, Chunk, Fits,
      ReadSmpl, ReadCue, ReadAcid, ReadBext, SkippedId, Metadata.Valid, ReadList;
    TopIdsApart();
    match m
    case Smpl(_, _, _, _, _, _, _, loops, specific) =>
      ChunkRead(SMPL_ID, SmplHeader(m) + LoopsBytes(loops) + specific);
      SmplRead(m);
    case Inst(settings) =>
      InstSize(m);
      ChunkRead(INST_ID, settings);
    case Cue(points) =>
      CuePoints(m);
      ChunkRead(CUE_ID, U32(|points|) + PointsBytes(points));
      CueRead(points);
    case Acid(_, _, _, _, _, _, _, _) =>
      ChunkRead(ACID_ID, AcidBody(m));
      AcidRead(m);
    case Bext(_, _, _, _, _, _, _, _, _, history) =>
      ChunkRead(BEXT_ID, BextNames(m) + BextTimes(m) + BextRest(m) + history);
      BextRead(m);
    case Unknown(id, _, data) =>
      IdSize(m);
      ChunkRead(id, data);
    case _ =>
  }

  lemma InstSize(m: Metadata)
    requires m.Inst? && m.Valid()
    ensures |m.settings| == 7
  {
  }

  lemma CuePoints(m: Metadata)
    requires m.Cue? && m.Valid()
    ensures forall p <- m.points :: |p.dataChunkId| == 4
  {
  }

  lemma IdSize(m: Metadata)
    requires m.Unknown? && m.Valid()
    ensures |m.id| == 4
  {
  }

  // Lists.

  lemma EntryRead(id: seq<Byte>, body: seq<Byte>, rest: seq<Byte>, location: Location)
    requires |id| == 4 && |body| < TWO_TO_THE_32 && id != ADTL_ID && id != INFO_ID
    ensures ReadList(Chunk(id, body) + rest, location) == ReadEntry(id, body, location) + ReadList(rest, location)
  {
    hide NumberAt, ReadEntry, Chunk;
    ChunkParts(id, body, rest);
  }

  lemma InfoEntryRead(m: Metadata, rest: seq<Byte>)
    requires m.Valid() && OwnId(m) && m.InInfoList() && !IsGap(m) && |InfoEntry(m)| < TWO_TO_THE_32
    ensures ReadList(InfoEntry(m) + rest, InsideInfoList) == [m] + ReadList(rest, InsideInfoList)
  {
    hide ReadList, Chunk, SkippedId;
    InfoIdsApart();
    if m.InfoText? {
      EntryRead(m.infoId, Terminated(m.text), rest, InsideInfoList);
    } else {
      EntryRead(m.id, m.data, rest, InsideInfoList);
    }
  }

  lemma InfoIdsApart()
    ensures forall id :: IsInfoId(id) ==> id != LABL_ID && id != NOTE_ID && id != LTXT_ID && id != ADTL_ID && id != INFO_ID
  {
    forall id | IsInfoId(id)
      ensures id[0] == 0x49 && (id[1] != 0x4E || id[2] == 0x41)
    {
    }
    assert LABL_ID[0] == 0x6C && NOTE_ID[0] == 0x6E && LTXT_ID[0] == 0x6C && ADTL_ID[0] == 0x61 && INFO_ID[1] == 0x4E && INFO_ID[2] == 0x46;
  }

  lemma AdtlEntryRead(m: Metadata, rest: seq<Byte>)
    requires m.Valid() && Fits(m) && OwnId(m) && m.InAdtlList() && !IsGap(m) && |AdtlEntry(m)| < TWO_TO_THE_32
    ensures ReadList(AdtlEntry(m) + rest, InsideAdtlList) == [m] + ReadList(rest, InsideAdtlList)
  {
    hide ReadList, Chunk, SkippedId, U32, RegionHeader, ReadLabel, ReadRegion, Fits;
    assert LABL_ID[1] == 0x61 && NOTE_ID[0] == 0x6E && LTXT_ID[1] == 0x74 && ADTL_ID[0] == 0x61 && INFO_ID[0] == 0x49
      && LABL_ID[0] == LTXT_ID[0] == 0x6C;
    if m.LabelOrNote? {
      EntryRead(if m.isNote then NOTE_ID else LABL_ID, U32(m.cuePointId) + Terminated(m.text), rest, InsideAdtlList);
      LabelRead(m);
    } else if m.Region? {
      EntryRead(LTXT_ID, RegionHeader(m) + (if m.text != [] then Terminated(m.text) else []), rest, InsideAdtlList);
      RegionRead(m);
    } else {
      EntryRead(m.id, m.data, rest, InsideAdtlList);
    }
  }

  // All of it.

  predicate AllGood(ms: seq<Metadata>) {
    forall m <- ms :: Fits(m) && OwnId(m) && !IsGap(m)
  }

  function TopItems(ms: seq<Metadata>): seq<Metadata> {
    if ms == [] then []
    else TopItems(ms[..|ms| - 1]) + if IsTop(ms[|ms| - 1]) then Returned(ms[|ms| - 1]) else []
  }

  function InfoItems(ms: seq<Metadata>): seq<Metadata> {
    if ms == [] then []
    else InfoItems(ms[..|ms| - 1]) + if ms[|ms| - 1].InInfoList() then [ms[|ms| - 1]] else []
  }

  function AdtlItems(ms: seq<Metadata>): seq<Metadata> {
    if ms == [] then []
    else AdtlItems(ms[..|ms| - 1]) + if ms[|ms| - 1].InAdtlList() then [ms[|ms| - 1]] else []
  }

  lemma {:induction false} InfoEntriesRead(ms: seq<Metadata>, rest: seq<Byte>)
    requires AllValid(ms) && AllGood(ms) && |InfoEntries(ms)| < TWO_TO_THE_32
    ensures ReadList(InfoEntries(ms) + rest, InsideInfoList) == InfoItems(ms) + ReadList(rest, InsideInfoList)
    decreases |ms|
  {
    hide ReadList, InfoEntry, Fits, OwnId, IsGap, Metadata.Valid;
    if ms == [] {
      assert InfoEntries(ms) + rest == rest;
    } else {
      var front, last := ms[..|ms| - 1], ms[|ms| - 1];
      InfoEntriesRead(front, InfoEntry(last) + rest);
      assert InfoEntries(ms) + rest == InfoEntries(front) + (InfoEntry(last) + rest);
      if last.InInfoList() {
        InfoEntryRead(last, rest);
        assert InfoItems(front) + ([last] + ReadList(rest, InsideInfoList)) == InfoItems(ms) + ReadList(rest, InsideInfoList);
      } else {
        NoEntry(last);
        assert InfoEntry(last) + rest == rest;
      }
    }
  }

  lemma NoEntry(m: Metadata)
    requires m.Valid()
    ensures !m.InInfoList() ==> InfoEntry(m) == []
    ensures !m.InAdtlList() ==> AdtlEntry(m) == []
    ensures !IsTop(m) ==> TopLevel(m) == []
  {
    hide Chunk;
  }

  lemma {:induction false} AdtlEntriesRead(ms: seq<Metadata>, rest: seq<Byte>)
    requires AllValid(ms) && AllGood(ms) && |AdtlEntries(ms)| < TWO_TO_THE_32
    ensures ReadList(AdtlEntries(ms) + rest, InsideAdtlList) == AdtlItems(ms) + ReadList(rest, InsideAdtlList)
    decreases |ms|
  {
    hide ReadList, AdtlEntry, Fits, OwnId, IsGap, Metadata.Valid;
    if ms == [] {
      assert AdtlEntries(ms) + rest == rest;
    } else {
      var front, last := ms[..|ms| - 1], ms[|ms| - 1];
      AdtlEntriesRead(front, AdtlEntry(last) + rest);
      assert AdtlEntries(ms) + rest == AdtlEntries(front) + (AdtlEntry(last) + rest);
      if last.InAdtlList() {
        AdtlEntryRead(last, rest);
        assert AdtlItems(front) + ([last] + ReadList(rest, InsideAdtlList)) == AdtlItems(ms) + ReadList(rest, InsideAdtlList);
      } else {
        NoEntry(last);
        assert AdtlEntry(last) + rest == rest;
      }
    }
  }

  /** A list whose size is right is read entry by entry. */
  lemma ListRead(id: seq<Byte>, entries: seq<Byte>)
    requires (id == INFO_ID || id == ADTL_ID) && 4 + |entries| < TWO_TO_THE_32
    ensures ReadPiece(List(id, 4 + |entries|, entries)) == ReadList(entries, if id == INFO_ID then InsideInfoList else InsideAdtlList)
  {
    hide NumberAt, ReadList, List, ReadItems;
    ListParts(id, entries);
    ListItems(id + entries);
    ListStarts(id, entries);
  }

  lemma ListItems(b: seq<Byte>)
    ensures ReadItems(LIST_ID, b) == ReadList(b, InvalidLocation)
  {
    hide ReadList, ReadSmpl, ReadCue, ReadAcid, ReadBext, SkippedId;
    TopIdsApart();
  }

  lemma ListParts(id: seq<Byte>, entries: seq<Byte>)
    requires |id| == 4 && 4 + |entries| < TWO_TO_THE_32
    ensures var e, n := List(id, 4 + |entries|, entries), 4 + |entries|;
      |e| == 8 + n && e[..4] == LIST_ID && NumberAt(e, 4, 4) == n && e[8..8 + n] == id + entries
  {
    hide NumberAt, U32, Stands;
    var e, n := List(id, 4 + |entries|, entries), 4 + |entries|;
    assert e == LIST_ID + U32(n) + (id + entries);
    StandsWhole(e);
    StandsApart(e, 0, LIST_ID + U32(n), id + entries);
    StandsApart(e, 0, LIST_ID, U32(n));
    Number32(e, 4, n);
    StandsTogether(e, 8, id + entries, 0, n);
    StandsTogether(e, 0, LIST_ID, 0, 4);
  }

  lemma ListStarts(id: seq<Byte>, entries: seq<Byte>)
    requires id == INFO_ID || id == ADTL_ID
    ensures ReadList(id + entries, InvalidLocation) == ReadList(entries, if id == INFO_ID then InsideInfoList else InsideAdtlList)
  {
    hide ReadEntry, NumberAt;
    var b := id + entries;
    assert b[..4] == id && b[4..] == entries;
    assert INFO_ID[0] != ADTL_ID[0];
  }

  function ReadPieces(pieces: seq<seq<Byte>>): seq<Metadata> {
    if pieces == [] then [] else ReadPieces(pieces[..|pieces| - 1]) + ReadPiece(pieces[|pieces| - 1])
  }

  lemma {:induction false} ReadFirst(first: seq<Byte>, pieces: seq<seq<Byte>>)
    ensures ReadPieces([first] + pieces) == ReadPiece(first) + ReadPieces(pieces)
    decreases |pieces|
  {
    hide ReadPiece;
    var all := [first] + pieces;
    if pieces == [] {
      assert all[..0] == [];
    } else {
      var n := |pieces| - 1;
      assert all[..n + 1] == [first] + pieces[..n] && all[n + 1] == pieces[n];
      ReadFirst(first, pieces[..n]);
    }
  }

  lemma ReadLast(pieces: seq<seq<Byte>>, last: seq<Byte>)
    ensures ReadPieces(pieces + [last]) == ReadPieces(pieces) + ReadPiece(last)
  {
    hide ReadPiece;
    assert (pieces + [last])[..|pieces|] == pieces;
  }

  lemma {:induction false} ChunksArePieces(e: seq<Byte>)
    requires Whole(e)
    ensures ReadChunks(e) == ReadPieces(Walked(e))
    decreases |e|
  {
    hide ReadPiece, ChunkEnd;
    if e != [] {
      ChunksArePieces(e[ChunkEnd(e)..]);
      ReadFirst(e[..ChunkEnd(e)], Walked(e[ChunkEnd(e)..]));
    }
  }

  lemma {:induction false} TopPiecesRead(ms: seq<Metadata>)
    requires AllValid(ms) && AllGood(ms) && forall m <- ms :: |TopLevel(m)| < TWO_TO_THE_32
    ensures ReadPieces(TopPieces(ms)) == TopItems(ms)
    decreases |ms|
  {
    hide ReadPiece, TopLevel, Fits, OwnId, IsGap, Metadata.Valid, Returned, ReadPieces;
    if ms == [] {
      NoPieces();
    } else {
      var front, last := ms[..|ms| - 1], ms[|ms| - 1];
      TopPiecesRead(front);
      if IsTop(last) {
        TopEmitted(last);
        ReadLast(TopPieces(front), TopLevel(last));
        PieceRead(last);
      } else {
        NoEntry(last);
        assert TopPieces(ms) == TopPieces(front);
      }
    }
  }

  lemma NoPieces()
    ensures ReadPieces([]) == []
  {
  }

  lemma TopEmitted(m: Metadata)
    requires m.Valid() && IsTop(m)
    ensures TopLevel(m) != []
  {
    hide SmplHeader, LoopsBytes, PointsBytes, AcidBody, BextNames, BextTimes, BextRest, U32, Zeros;
  }

  /** Metadata that is written and read comes back: first the items of the first pass, then those of the two lists, each
      with all its fields; only a "smpl" item with 24 or more bytes of sampler-specific data is lost, and the strings of
      a "bext" item are cut to their fields and at zero bytes. */
  lemma MetadataRoundTrip(ms: seq<Metadata>)
    requires AllValid(ms) && Sized(ms) && NoGaps(ms) && AllGood(ms)
    ensures Whole(MetadataBytes(ms))
    ensures ReadChunks(MetadataBytes(ms)) == TopItems(ms) + InfoItems(ms) + AdtlItems(ms)
  {
    hide ReadPieces, ReadPiece, ReadChunks, ReadList, AllGood, AllValid, NoGaps, Whole, Walked, TopPieces, TopItems, InfoItems, AdtlItems, List,
      MetadataBytes, InfoEntries, AdtlEntries, InfoSize, AdtlSize, HasInfo, HasAdtl, TopLevel, InfoFull, AdtlFull;
    MetadataVisited(ms);
    ChunksArePieces(MetadataBytes(ms));
    TopPiecesRead(ms);
    FullOrGap(ms);
    InfoSizeExact(ms);
    AdtlSizeExact(ms);
    NothingAfter(InsideInfoList);
    NothingAfter(InsideAdtlList);
    InfoEntriesRead(ms, []);
    AdtlEntriesRead(ms, []);
    assert InfoEntries(ms) + [] == InfoEntries(ms) && AdtlEntries(ms) + [] == AdtlEntries(ms);
    ListRead(INFO_ID, InfoEntries(ms));
    ListRead(ADTL_ID, AdtlEntries(ms));
    NoListItems(ms);
    var info, adtl := List(INFO_ID, InfoSize(ms), InfoEntries(ms)), List(ADTL_ID, AdtlSize(ms), AdtlEntries(ms));
    var first := TopPieces(ms) + if HasInfo(ms) then [info] else [];
    ReadLast(TopPieces(ms), info);
    ReadLast(first, adtl);
    assert TopPieces(ms) + [] == TopPieces(ms) && first + [] == first;
  }

  lemma NothingAfter(location: Location)
    ensures ReadList([], location) == []
  {
  }

  lemma {:induction false} NoListItems(ms: seq<Metadata>)
    ensures !HasInfo(ms) ==> InfoItems(ms) == []
    ensures !HasAdtl(ms) ==> AdtlItems(ms) == []
    decreases |ms|
  {
    if ms != [] {
      NoListItems(ms[..|ms| - 1]);
      assert ms[|ms| - 1] in ms;
      forall m <- ms[..|ms| - 1]
        ensures m in ms
      {
      }
    }
  }

  /** Writing the metadata and reading what was written. */
  method WriteThenReadMetadata(ms: seq<Metadata>) returns (items: seq<Metadata>)
    requires AllValid(ms) && Sized(ms) && NoGaps(ms) && AllGood(ms)
    ensures items == TopItems(ms) + InfoItems(ms) + AdtlItems(ms)
  {
    hide AllValid, Sized, NoGaps, AllGood, MetadataBytes, Whole, ReadChunks, TopItems, InfoItems, AdtlItems;
    MetadataRoundTrip(ms);
    var stream := new MemoryStreamWrite();
    var n := WriteOrCount(stream, ms);
    assert stream.data == MetadataBytes(ms);
    items := ReadChunks(stream.data);
  }

  /** Sampler-specific data of the size of a loop makes the reader lose the whole item. */
  lemma SmplLost()
    ensures var m := Smpl(0, 0, 0, 0, 0, 0, 0, [], Zeros(24));
      Fits(m) && ReadSmpl(SmplHeader(m) + LoopsBytes(m.loops) + m.specific) == None
  {
    SmplRead(Smpl(0, 0, 0, 0, 0, 0, 0, [], Zeros(24)));
  }

  /** Texts end with a zero byte. */
  lemma TextsEnd(m: Metadata)
    requires m.Valid() && (m.InfoText? || m.LabelOrNote? || m.Region?) && m.text != []
    ensures var e, k := (if m.InfoText? then InfoEntry(m) else AdtlEntry(m)), if m.InfoText? then 8 else if m.Region? then 28 else 12;
      k + |m.text| < |e| && e[k + |m.text|] == 0
  {
    hide U32, RegionHeader, Chunk, Zeros;
    if m.InfoText? {
      LastByte(m.infoId, Terminated(m.text));
    } else if m.Region? {
      LastByte(LTXT_ID, RegionHeader(m) + Terminated(m.text));
    } else {
      LastByte(if m.isNote then NOTE_ID else LABL_ID, U32(m.cuePointId) + Terminated(m.text));
    }
  }

  lemma LastByte(id: seq<Byte>, body: seq<Byte>)
    requires |id| == 4 && body != [] && body[|body| - 1] == 0
    ensures 7 + |body| < |Chunk(id, body)| && Chunk(id, body)[7 + |body|] == 0
  {
    hide U32, Zeros;
    var n := |body|;
    assert (id + U32(n) + body)[7 + n] == body[n - 1];
  }
}
