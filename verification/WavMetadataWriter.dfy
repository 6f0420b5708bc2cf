/** Emitting or counting metadata (core-interface/wav/dr_wav.h: `drwav__write_or_count_metadata`): one routine
    that writes to a stream, or only counts when there is none. */
module WavMetadataWriter {
  import opened Bytes
  import opened WavFormat
  import opened WavWriter
  import opened WavMetadata

  /** Where the routine sends its bytes. `out` is what it would write or has written. */
  class Sink {
    const stream: MemoryStreamWrite?
    ghost const base: seq<Byte>
    ghost var out: seq<Byte>

    ghost predicate Valid()
      reads this, stream
    {
      stream != null ==> stream.Valid() && stream.pos == |stream.data| && stream.data == base + out
    }

    constructor (stream: MemoryStreamWrite?)
      requires stream != null ==> stream.Valid() && stream.pos == |stream.data|
      ensures Valid() && this.stream == stream && out == [] && (stream != null ==> base == stream.data)
    {
      this.stream := stream;
      base := if stream == null then [] else stream.data;
      out := [];
    }

    /** `drwav__write_or_count`. */
    method Put(bytes: seq<Byte>) returns (n: nat)
      requires Valid()
      modifies this, stream
      ensures Valid() && n == |bytes| && out == old(out) + bytes
    {
      if stream == null {
        n := |bytes|;
      } else {
        n := stream.Append(bytes);
      }
      out := out + bytes;
    }

    method PutByte(b: Byte) returns (n: nat)
      requires Valid()
      modifies this, stream
      ensures Valid() && n == 1 && out == old(out) + [b]
    {
      n := Put([b]);
    }

    method PutU16(x: nat) returns (n: nat)
      requires Valid()
      modifies this, stream
      ensures Valid() && n == 2 && out == old(out) + U16(x)
    {
      n := Put(U16(x));
    }

    method PutU32(x: nat) returns (n: nat)
      requires Valid()
      modifies this, stream
      ensures Valid() && n == 4 && out == old(out) + U32(x)
    {
      n := Put(U32(x));
    }

    /** `drwav__write_or_count_string_to_fixed_size_buf`. */
    method PutFixed(s: seq<Byte>, size: nat) returns (n: nat)
      requires Valid()
      modifies this, stream
      ensures Valid() && n == size && out == old(out) + Fixed(s, size)
    {
      if stream == null {
        out := out + Fixed(s, size);
        return size;
      }
      var len := LengthClamped(s, size);
      var _ := Put(s[..len]);
      if len < size {
        var i := 0;
        while i < size - len
          invariant 0 <= i <= size - len && Valid() && out == old(out) + s[..len] + Zeros(i)
        {
          var _ := PutByte(0);
          assert Zeros(i) + [0] == Zeros(i + 1);
          i := i + 1;
        }
      }
      n := size;
    }

    method PutLoop(l: Loop) returns (n: nat)
      requires Valid()
      modifies this, stream
      ensures Valid() && n == 24 && out == old(out) + LoopBytes(l)
    {
      hide U32;
      var k := PutU32(l.cuePointId);
      n := k;
      k := PutU32(l.kind);
      n := n + k;
      k := PutU32(l.firstSampleOffset);
      n := n + k;
      k := PutU32(l.lastSampleOffset);
      n := n + k;
      k := PutU32(l.sampleFraction);
      n := n + k;
      k := PutU32(l.playCount);
      n := n + k;
    }

    method PutSmplHeader(m: Metadata) returns (n: nat)
      requires Valid() && m.Smpl?
      modifies this, stream
      ensures Valid() && n == 36 && out == old(out) + SmplHeader(m)
    {
      hide U32;
      var k := PutU32(m.manufacturerId);
      n := k;
      k := PutU32(m.productId);
      n := n + k;
      k := PutU32(m.samplePeriod);
      n := n + k;
      k := PutU32(m.midiUnityNote);
      n := n + k;
      k := PutU32(m.midiPitchFraction);
      n := n + k;
      k := PutU32(m.smpteFormat);
      n := n + k;
      k := PutU32(m.smpteOffset);
      n := n + k;
      k := PutU32(|m.loops|);
      n := n + k;
      k := PutU32(|m.specific|);
      n := n + k;
    }

    /** The start of a chunk. */
    method PutHeader(id: seq<Byte>, size: nat) returns (n: nat)
      requires Valid()
      modifies this, stream
      ensures Valid() && n == |id| + 4 && out == old(out) + (id + U32(size))
    {
      hide U32;
      n := Put(id);
      var k := PutU32(size);
      n := n + k;
    }

    /** The padding after a body of `size` bytes. */
    method PutPadding(size: nat) returns (n: nat)
      requires Valid()
      modifies this, stream
      ensures Valid() && n == size % 2 && out == old(out) + Zeros(size % 2)
    {
      n := 0;
      if size % 2 != 0 {
        n := PutByte(0);
        assert Zeros(1) == [0];
      }
    }

    method PutLoops(ls: seq<Loop>) returns (n: nat)
      requires Valid()
      modifies this, stream
      ensures Valid() && n == 24 * |ls| && out == old(out) + LoopsBytes(ls)
    {
      hide LoopBytes;
      n := 0;
      var iLoop := 0;
      while iLoop < |ls|
        invariant 0 <= iLoop <= |ls| && Valid() && out == old(out) + LoopsBytes(ls[..iLoop]) && n == 24 * iLoop
      {
        assert ls[..iLoop + 1][..iLoop] == ls[..iLoop];
        var k := PutLoop(ls[iLoop]);
        n := n + k;
        iLoop := iLoop + 1;
      }
      assert ls[..iLoop] == ls;
    }

    method PutSmpl(m: Metadata) returns (n: nat, chunkSize: nat)
      requires Valid() && m.Smpl? && m.Valid()
      modifies this, stream
      ensures Valid() && chunkSize == 36 + 24 * |m.loops| + |m.specific| && n == 8 + chunkSize
      ensures out + Zeros(chunkSize % 2) == old(out) + TopLevel(m) && n + chunkSize % 2 == |TopLevel(m)|
    {
      hide U32, SmplHeader, LoopsBytes, Chunk, Zeros;
      chunkSize := 36 + 24 * |m.loops| + |m.specific|;
      n := PutHeader(SMPL_ID, chunkSize);
      var k := PutSmplHeader(m);
      n := n + k;
      k := PutLoops(m.loops);
      n := n + k;
      if |m.specific| > 0 {
        k := Put(m.specific);
        n := n + k;
      }
      Padded(old(out), SMPL_ID, SmplHeader(m) + LoopsBytes(m.loops) + m.specific);
    }

    method PutInst(m: Metadata) returns (n: nat, chunkSize: nat)
      requires Valid() && m.Inst? && m.Valid()
      modifies this, stream
      ensures Valid() && chunkSize == 7 && n == 8 + chunkSize
      ensures out + Zeros(chunkSize % 2) == old(out) + TopLevel(m) && n + chunkSize % 2 == |TopLevel(m)|
    {
      hide U32, Chunk, Zeros;
      chunkSize := 7;
      n := PutHeader(INST_ID, chunkSize);
      ghost var before := out;
      var i := 0;
      while i < 7
        invariant 0 <= i <= 7 && Valid() && out == before + m.settings[..i] && n == 8 + i
      {
        var k := Put([m.settings[i]]);
        n := n + k;
        i := i + 1;
      }
      assert m.settings[..7] == m.settings;
      Padded(old(out), INST_ID, m.settings);
    }

    method PutPoint(p: CuePoint) returns (n: nat)
      requires Valid() && |p.dataChunkId| == 4
      modifies this, stream
      ensures Valid() && n == 24 && out == old(out) + PointBytes(p)
    {
      hide U32;
      var k := PutU32(p.id);
      n := k;
      k := PutU32(p.playOrderPosition);
      n := n + k;
      k := Put(p.dataChunkId);
      n := n + k;
      k := PutU32(p.chunkStart);
      n := n + k;
      k := PutU32(p.blockStart);
      n := n + k;
      k := PutU32(p.sampleOffset);
      n := n + k;
    }

    method PutPoints(ps: seq<CuePoint>) returns (n: nat)
      requires Valid() && forall p <- ps :: |p.dataChunkId| == 4
      modifies this, stream
      ensures Valid() && n == 24 * |ps| && out == old(out) + PointsBytes(ps)
    {
      hide PointBytes;
      n := 0;
      var iCuePoint := 0;
      while iCuePoint < |ps|
        invariant 0 <= iCuePoint <= |ps| && Valid() && out == old(out) + PointsBytes(ps[..iCuePoint]) && n == 24 * iCuePoint
      {
        assert ps[..iCuePoint + 1][..iCuePoint] == ps[..iCuePoint];
        var k := PutPoint(ps[iCuePoint]);
        n := n + k;
        iCuePoint := iCuePoint + 1;
      }
      assert ps[..iCuePoint] == ps;
    }

    method PutCue(m: Metadata) returns (n: nat, chunkSize: nat)
      requires Valid() && m.Cue? && m.Valid()
      modifies this, stream
      ensures Valid() && chunkSize == 4 + 24 * |m.points| && n == 8 + chunkSize
      ensures out + Zeros(chunkSize % 2) == old(out) + TopLevel(m) && n + chunkSize % 2 == |TopLevel(m)|
    {
      hide U32, PointsBytes, Chunk, Zeros;
      chunkSize := 4 + 24 * |m.points|;
      n := PutHeader(CUE_ID, chunkSize);
      var k := PutU32(|m.points|);
      n := n + k;
      k := PutPoints(m.points);
      n := n + k;
      Padded(old(out), CUE_ID, U32(|m.points|) + PointsBytes(m.points));
    }

    method PutAcidStart(m: Metadata) returns (n: nat)
      requires Valid() && m.Acid?
      modifies this, stream
      ensures Valid() && n == 12 && out == old(out) + (U32(m.flags) + U16(m.rootNote) + U16(m.reserved1) + U32(m.reserved2))
    {
      hide U32, U16;
      var k := PutU32(m.flags);
      n := k;
      k := PutU16(m.rootNote);
      n := n + k;
      k := PutU16(m.reserved1);
      n := n + k;
      k := PutU32(m.reserved2);
      n := n + k;
    }

    method PutAcid(m: Metadata) returns (n: nat, chunkSize: nat)
      requires Valid() && m.Acid? && m.Valid()
      modifies this, stream
      ensures Valid() && chunkSize == 24 && n == 8 + chunkSize
      ensures out + Zeros(chunkSize % 2) == old(out) + TopLevel(m) && n + chunkSize % 2 == |TopLevel(m)|
    {
      hide U32, U16, Chunk, Zeros;
      chunkSize := 24;
      n := PutHeader(ACID_ID, chunkSize);
      var k := PutAcidStart(m);
      n := n + k;
      k := PutU32(m.numBeats);
      n := n + k;
      k := PutU16(m.meterDenominator);
      n := n + k;
      k := PutU16(m.meterNumerator);
      n := n + k;
      k := PutU32(m.tempo);
      n := n + k;
      Padded(old(out), ACID_ID, AcidBody(m));
    }

    method PutBextNames(m: Metadata) returns (n: nat)
      requires Valid() && m.Bext?
      modifies this, stream
      ensures Valid() && n == 320 && out == old(out) + BextNames(m)
    {
      hide Fixed;
      var k := PutFixed(m.description, 256);
      n := k;
      k := PutFixed(m.originatorName, 32);
      n := n + k;
      k := PutFixed(m.originatorReference, 32);
      n := n + k;
    }

    method PutBextTimes(m: Metadata) returns (n: nat)
      requires Valid() && m.Bext? && m.Valid()
      modifies this, stream
      ensures Valid() && n == 28 && out == old(out) + BextTimes(m)
    {
      hide U32, U16;
      var k := Put(m.date);
      n := k;
      k := Put(m.time);
      n := n + k;
      var timeReferenceLow, timeReferenceHigh := m.timeReference % TWO_TO_THE_32, m.timeReference / TWO_TO_THE_32;
      k := PutU32(timeReferenceLow);
      n := n + k;
      k := PutU32(timeReferenceHigh);
      n := n + k;
      k := PutU16(m.version);
      n := n + k;
    }

    method PutBextRest(m: Metadata) returns (n: nat)
      requires Valid() && m.Bext? && m.Valid()
      modifies this, stream
      ensures Valid() && n == 254 && out == old(out) + BextRest(m)
    {
      hide U16;
      var k := Put(m.umid);
      n := k;
      k := PutU16(m.loudness[0]);
      n := n + k;
      k := PutU16(m.loudness[1]);
      n := n + k;
      k := PutU16(m.loudness[2]);
      n := n + k;
      k := PutU16(m.loudness[3]);
      n := n + k;
      k := PutU16(m.loudness[4]);
      n := n + k;
      k := Put(Zeros(180));
      n := n + k;
    }

    method PutBext(m: Metadata) returns (n: nat, chunkSize: nat)
      requires Valid() && m.Bext? && m.Valid()
      modifies this, stream
      ensures Valid() && chunkSize == 602 + |m.history| && n == 8 + chunkSize
      ensures out + Zeros(chunkSize % 2) == old(out) + TopLevel(m) && n + chunkSize % 2 == |TopLevel(m)|
    {
      hide U32, BextNames, BextTimes, BextRest, Chunk, Zeros;
      chunkSize := 602 + |m.history|;
      n := PutHeader(BEXT_ID, chunkSize);
      var k := PutBextNames(m);
      n := n + k;
      k := PutBextTimes(m);
      n := n + k;
      k := PutBextRest(m);
      n := n + k;
      if |m.history| > 0 {
        k := Put(m.history);
        n := n + k;
      }
      Padded(old(out), BEXT_ID, BextNames(m) + BextTimes(m) + BextRest(m) + m.history);
    }

    /** One item of the first pass. */
    method PutTopLevel(m: Metadata) returns (n: nat)
      requires Valid() && m.Valid()
      modifies this, stream
      ensures Valid() && out == old(out) + TopLevel(m) && n == |TopLevel(m)|
    {
      hide U32, SmplHeader, LoopsBytes, PointsBytes, AcidBody, BextNames, BextTimes, BextRest, Chunk, Zeros;
      var chunkSize := 0;
      n := 0;
      NoPadding(out);
      match m {
        case Smpl(_, _, _, _, _, _, _, _, _) =>
          n, chunkSize := PutSmpl(m);
        case Inst(_) =>
          n, chunkSize := PutInst(m);
        case Cue(_) =>
          n, chunkSize := PutCue(m);
        case Acid(_, _, _, _, _, _, _, _) =>
          n, chunkSize := PutAcid(m);
        case Bext(_, _, _, _, _, _, _, _, _, _) =>
          n, chunkSize := PutBext(m);
        case Unknown(id, location, data) =>
          if location == TopLevelChunk {
            chunkSize := |data|;
            n := PutHeader(id, chunkSize);
            var k := Put(data);
            n := n + k;
            Padded(old(out), id, data);
          }
        case _ =>
      }
      var k := PutPadding(chunkSize);
      n := n + k;
    }

    /** One item of the INFO list. */
    method PutInfoEntry(m: Metadata) returns (n: nat)
      requires Valid() && m.Valid()
      modifies this, stream
      ensures Valid() && out == old(out) + InfoEntry(m) && n == |InfoEntry(m)|
    {
      hide U32, Chunk, Zeros;
      ghost var before := out;
      var subchunkSize := 0;
      n := 0;
      NoPadding(before);
      if m.InfoText? {
        if |m.text| > 0 {
          subchunkSize := |m.text| + 1;
          n := PutHeader(m.infoId, subchunkSize);
          var k := PutText(m.text);
          n := n + k;
          Padded(before, m.infoId, Terminated(m.text));
        }
      } else if m.Unknown? && m.location == InsideInfoList {
        if |m.data| > 0 {
          subchunkSize := |m.data|;
          n := PutHeader(m.id, subchunkSize);
          var k := Put(m.data);
          n := n + k;
          Padded(before, m.id, m.data);
        }
      }
      var k := PutPadding(subchunkSize);
      n := n + k;
    }

    method PutText(text: seq<Byte>) returns (n: nat)
      requires Valid()
      modifies this, stream
      ensures Valid() && n == |text| + 1 && out == old(out) + Terminated(text)
    {
      n := Put(text);
      var k := PutByte(0);
      n := n + k;
    }

    method PutRegionHeader(m: Metadata) returns (n: nat)
      requires Valid() && m.Region? && m.Valid()
      modifies this, stream
      ensures Valid() && n == 20 && out == old(out) + RegionHeader(m)
    {
      hide U32, U16;
      var k := PutU32(m.cuePointId);
      n := k;
      k := PutU32(m.sampleLength);
      n := n + k;
      k := Put(m.purposeId);
      n := n + k;
      k := PutU16(m.country);
      n := n + k;
      k := PutU16(m.language);
      n := n + k;
      k := PutU16(m.dialect);
      n := n + k;
      k := PutU16(m.codePage);
      n := n + k;
    }

    /** A labelled region of the "adtl" list. */
    method PutRegion(m: Metadata) returns (n: nat, subchunkSize: nat)
      requires Valid() && m.Region? && m.Valid()
      modifies this, stream
      ensures Valid() && subchunkSize == 20 + (if |m.text| > 0 then |m.text| + 1 else 0) && n == 8 + subchunkSize
      ensures out == old(out) + (LTXT_ID + U32(subchunkSize)) + (RegionHeader(m) + if m.text != [] then Terminated(m.text) else [])
    {
      hide U32, RegionHeader, Terminated;
      subchunkSize := 20;
      if |m.text| > 0 {
        subchunkSize := subchunkSize + (|m.text| + 1);
      }
      n := PutHeader(LTXT_ID, subchunkSize);
      var k := PutRegionHeader(m);
      n := n + k;
      if |m.text| > 0 {
        k := PutText(m.text);
        n := n + k;
      }
    }

    method PutLabel(m: Metadata) returns (n: nat, subchunkSize: nat)
      requires Valid() && m.LabelOrNote? && m.text != []
      modifies this, stream
      ensures Valid() && subchunkSize == 4 + (|m.text| + 1) && n == 8 + subchunkSize
      ensures out == old(out) + ((if m.isNote then NOTE_ID else LABL_ID) + U32(subchunkSize)) + (U32(m.cuePointId) + Terminated(m.text))
    {
      hide U32;
      subchunkSize := 4 + (|m.text| + 1);
      n := PutHeader(if m.isNote then NOTE_ID else LABL_ID, subchunkSize);
      var k := PutU32(m.cuePointId);
      n := n + k;
      k := PutText(m.text);
      n := n + k;
    }

    /** One item of the "adtl" list. */
    method PutAdtlEntry(m: Metadata) returns (n: nat)
      requires Valid() && m.Valid()
      modifies this, stream
      ensures Valid() && out == old(out) + AdtlEntry(m) && n == |AdtlEntry(m)|
    {
      hide U32, Chunk, Zeros, RegionHeader;
      ghost var before := out;
      var subchunkSize := 0;
      n := 0;
      NoPadding(before);
      match m {
        case LabelOrNote(_, _, text) =>
          if |text| > 0 {
            n, subchunkSize := PutLabel(m);
            Padded(before, if m.isNote then NOTE_ID else LABL_ID, U32(m.cuePointId) + Terminated(text));
          }
        case Region(_, _, _, _, _, _, _, text) =>
          n, subchunkSize := PutRegion(m);
          Padded(before, LTXT_ID, RegionHeader(m) + if text != [] then Terminated(text) else []);
        case Unknown(id, location, data) =>
          if location == InsideAdtlList {
            subchunkSize := |data|;
            n := PutHeader(id, subchunkSize);
            var k := Put(data);
            n := n + k;
            Padded(before, id, data);
          }
        case _ =>
      }
      var k := PutPadding(subchunkSize);
      n := n + k;
    }

    /** The first pass, and which lists there are to be. */
    method PutTopLevels(ms: seq<Metadata>) returns (n: nat, hasListInfo: bool, hasListAdtl: bool)
      requires Valid() && AllValid(ms)
      modifies this, stream
      ensures Valid() && out == old(out) + TopLevels(ms) && n == |TopLevels(ms)|
      ensures hasListInfo == HasInfo(ms) && hasListAdtl == HasAdtl(ms)
    {
      hide TopLevel, Metadata.Valid;
      n, hasListInfo, hasListAdtl := 0, false, false;
      var iMetadata := 0;
      while iMetadata < |ms|
        invariant 0 <= iMetadata <= |ms| && Valid()
        invariant out == old(out) + TopLevels(ms[..iMetadata]) && n == |TopLevels(ms[..iMetadata])|
        invariant hasListInfo == HasInfo(ms[..iMetadata]) && hasListAdtl == HasAdtl(ms[..iMetadata])
      {
        OneMore(ms, iMetadata);
        if ms[iMetadata].InInfoList() {
          hasListInfo := true;
        }
        if ms[iMetadata].InAdtlList() {
          hasListAdtl := true;
        }
        var k := PutTopLevel(ms[iMetadata]);
        n := n + k;
        iMetadata := iMetadata + 1;
      }
      assert ms[..iMetadata] == ms;
    }

    /** The INFO list: first its size, then its entries. */
    method PutInfoList(ms: seq<Metadata>) returns (n: nat)
      requires Valid() && AllValid(ms)
      modifies this, stream
      ensures Valid() && out == old(out) + List(INFO_ID, InfoSize(ms), InfoEntries(ms))
      ensures n == 12 + |InfoEntries(ms)|
    {
      hide U32, List, InfoEntries, InfoSize;
      var chunkSize := CountInfo(ms);
      ListJoined(out, INFO_ID, chunkSize, InfoEntries(ms));
      n := PutHeader(LIST_ID, chunkSize);
      var k := Put(INFO_ID);
      n := n + k;
      k := PutInfoEntries(ms);
      n := n + k;
    }

    method PutInfoEntries(ms: seq<Metadata>) returns (n: nat)
      requires Valid() && AllValid(ms)
      modifies this, stream
      ensures Valid() && out == old(out) + InfoEntries(ms) && n == |InfoEntries(ms)|
    {
      hide InfoEntry, HasInfo, HasAdtl, Metadata.Valid;
      n := 0;
      var iMetadata := 0;
      while iMetadata < |ms|
        invariant 0 <= iMetadata <= |ms| && Valid()
        invariant out == old(out) + InfoEntries(ms[..iMetadata]) && n == |InfoEntries(ms[..iMetadata])|
      {
        OneMore(ms, iMetadata);
        var k := PutInfoEntry(ms[iMetadata]);
        n := n + k;
        iMetadata := iMetadata + 1;
      }
      assert ms[..iMetadata] == ms;
    }

    /** The "adtl" list: first its size, then its entries. */
    method PutAdtlList(ms: seq<Metadata>) returns (n: nat)
      requires Valid() && AllValid(ms)
      modifies this, stream
      ensures Valid() && out == old(out) + List(ADTL_ID, AdtlSize(ms), AdtlEntries(ms))
      ensures n == 12 + |AdtlEntries(ms)|
    {
      hide U32, List, AdtlEntries, AdtlSize;
      var chunkSize := CountAdtl(ms);
      ListJoined(out, ADTL_ID, chunkSize, AdtlEntries(ms));
      n := PutHeader(LIST_ID, chunkSize);
      var k := Put(ADTL_ID);
      n := n + k;
      k := PutAdtlEntries(ms);
      n := n + k;
    }

    method PutAdtlEntries(ms: seq<Metadata>) returns (n: nat)
      requires Valid() && AllValid(ms)
      modifies this, stream
      ensures Valid() && out == old(out) + AdtlEntries(ms) && n == |AdtlEntries(ms)|
    {
      hide AdtlEntry, HasInfo, HasAdtl, Metadata.Valid;
      n := 0;
      var iMetadata := 0;
      while iMetadata < |ms|
        invariant 0 <= iMetadata <= |ms| && Valid()
        invariant out == old(out) + AdtlEntries(ms[..iMetadata]) && n == |AdtlEntries(ms[..iMetadata])|
      {
        OneMore(ms, iMetadata);
        var k := PutAdtlEntry(ms[iMetadata]);
        n := n + k;
        iMetadata := iMetadata + 1;
      }
      assert ms[..iMetadata] == ms;
    }
  }

  /** The sizes the lists are given. */
  method CountInfo(ms: seq<Metadata>) returns (chunkSize: nat)
    ensures chunkSize == InfoSize(ms)
  {
    hide InfoCounted, HasInfo, HasAdtl;
    chunkSize := 4;
    var iMetadata := 0;
    while iMetadata < |ms|
      invariant 0 <= iMetadata <= |ms| && chunkSize == InfoSize(ms[..iMetadata])
    {
      OneMore(ms, iMetadata);
      chunkSize := chunkSize + InfoCounted(ms[iMetadata]);
      if chunkSize % 2 != 0 {
        chunkSize := chunkSize + 1;
      }
      iMetadata := iMetadata + 1;
    }
    assert ms[..iMetadata] == ms;
  }

  method CountAdtl(ms: seq<Metadata>) returns (chunkSize: nat)
    ensures chunkSize == AdtlSize(ms)
  {
    hide AdtlCounted, HasInfo, HasAdtl;
    chunkSize := 4;
    var iMetadata := 0;
    while iMetadata < |ms|
      invariant 0 <= iMetadata <= |ms| && chunkSize == AdtlSize(ms[..iMetadata])
    {
      OneMore(ms, iMetadata);
      chunkSize := chunkSize + AdtlCounted(ms[iMetadata]);
      if chunkSize % 2 != 0 {
        chunkSize := chunkSize + 1;
      }
      iMetadata := iMetadata + 1;
    }
    assert ms[..iMetadata] == ms;
  }

  lemma Padded(before: seq<Byte>, id: seq<Byte>, body: seq<Byte>)
    ensures before + (id + U32(|body|)) + body + Zeros(|body| % 2) == before + Chunk(id, body)
  {
  }

  lemma ListJoined(before: seq<Byte>, id: seq<Byte>, size: nat, entries: seq<Byte>)
    ensures before + (LIST_ID + U32(size)) + id + entries == before + List(id, size, entries)
  {
  }

  lemma NoPadding(before: seq<Byte>)
    ensures before + Zeros(0) == before + []
  {
  }

  lemma OneMore(ms: seq<Metadata>, i: nat)
    requires i < |ms|
    ensures ms[..i + 1] != [] && ms[..i + 1][..i] == ms[..i] && ms[..i + 1][i] == ms[i]
    ensures HasInfo(ms[..i + 1]) == (HasInfo(ms[..i]) || ms[i].InInfoList())
    ensures HasAdtl(ms[..i + 1]) == (HasAdtl(ms[..i]) || ms[i].InAdtlList())
  {
    assert ms[..i + 1] == ms[..i] + [ms[i]];
  }

  /** `drwav__write_or_count_metadata`: what it returns is the number of bytes, whether it writes them to the
      end of a stream or, without one, only counts. */
  method WriteOrCount(stream: MemoryStreamWrite?, ms: seq<Metadata>) returns (bytesWritten: nat)
    requires AllValid(ms) && (stream != null ==> stream.Valid() && stream.pos == |stream.data|)
    modifies stream
    ensures bytesWritten == |MetadataBytes(ms)|
    ensures stream != null ==> stream.Valid() && stream.pos == |stream.data| && stream.data == old(stream.data) + MetadataBytes(ms)
  {
    hide TopLevels, InfoEntries, AdtlEntries, InfoSize, AdtlSize, U32, HasInfo, HasAdtl;
    var sink := new Sink(stream);
    if |ms| == 0 {
      NothingEmitted();
      return 0;
    }
    var hasListInfo, hasListAdtl;
    bytesWritten, hasListInfo, hasListAdtl := sink.PutTopLevels(ms);
    if hasListInfo {
      var k := sink.PutInfoList(ms);
      bytesWritten := bytesWritten + k;
    }
    if hasListAdtl {
      var k := sink.PutAdtlList(ms);
      bytesWritten := bytesWritten + k;
    }
  }

  lemma NothingEmitted()
    ensures MetadataBytes([]) == []
  {
  }
}
