/** What the metadata a writer emits looks like to a reader that walks over the chunks of a file. */
module WavMetadataChunks {
  import opened Bytes
  import opened WavFormat
  import opened WavWriter
  import opened WavRoundTrip
  import opened WavMetadata
  import opened WavMetadataWriter
  import opened WavParser

  /** One whole chunk: its header's size and padding reach exactly to its end. */
  predicate IsChunk(e: seq<Byte>) {
    |e| >= 8 && ChunkEnd(e) == |e|
  }

  /** A sequence of whole chunks, whatever their identifiers. */
  predicate Whole(e: seq<Byte>)
    decreases |e|
  {
    e == [] || (|e| >= 8 && ChunkEnd(e) <= |e| && Whole(e[ChunkEnd(e)..]))
  }

  /** The chunks a walk over `e` visits. */
  function Walked(e: seq<Byte>): seq<seq<Byte>>
    requires Whole(e)
    decreases |e|
  {
    if e == [] then [] else [e[..ChunkEnd(e)]] + Walked(e[ChunkEnd(e)..])
  }

  /** The walk goes by what `drwav__read_chunk_header` reads: header, body and padding. */
  lemma WalkReadsHeaders(e: seq<Byte>, c: Container)
    requires |e| >= 8 && (c == Riff || c == Rf64)
    ensures var h := ReadHeader(e, c, 0); h.Some? && h.value.body + h.value.size + h.value.padding == ChunkEnd(e)
  {
  }

  /** The pieces the writer emits, in order. */
  function TopPieces(ms: seq<Metadata>): seq<seq<Byte>>
    requires AllValid(ms)
  {
    if ms == [] then []
    else TopPieces(ms[..|ms| - 1]) + if TopLevel(ms[|ms| - 1]) == [] then [] else [TopLevel(ms[|ms| - 1])]
  }

  function Pieces(ms: seq<Metadata>): seq<seq<Byte>>
    requires AllValid(ms)
  {
    TopPieces(ms)
    + (if HasInfo(ms) then [List(INFO_ID, InfoSize(ms), InfoEntries(ms))] else [])
    + if HasAdtl(ms) then [List(ADTL_ID, AdtlSize(ms), AdtlEntries(ms))] else []
  }

  /** The sizes fit in the 32 bits they are stored in. */
  predicate Sized(ms: seq<Metadata>)
    requires AllValid(ms)
  {
    InfoSize(ms) < TWO_TO_THE_32 && AdtlSize(ms) < TWO_TO_THE_32 && forall m <- ms :: |TopLevel(m)| < TWO_TO_THE_32
  }

  /** An item whose text or data is empty although its list makes room for it. */
  predicate IsGap(m: Metadata) {
    (m.InfoText? && m.text == []) || (m.LabelOrNote? && m.text == [])
    || (m.Unknown? && m.location == InsideInfoList && m.data == [])
  }

  predicate NoGaps(ms: seq<Metadata>) {
    forall m <- ms :: !IsGap(m)
  }

  // Sizes against what is emitted.

  predicate IsEven(n: int) {
    n % 2 == 0
  }

  lemma EvenSum(a: int, b: int)
    ensures IsEven(a) && IsEven(b) ==> IsEven(a + b)
  {
  }

  /** Nothing in the INFO list, or in the "adtl" list, is empty. */
  predicate InfoFull(ms: seq<Metadata>) {
    forall m <- ms :: !IsGap(m) || m.LabelOrNote?
  }

  predicate AdtlFull(ms: seq<Metadata>) {
    forall m <- ms :: !(m.LabelOrNote? && m.text == [])
  }

  lemma OneMoreItem(ms: seq<Metadata>)
    requires ms != []
    ensures var front, last := ms[..|ms| - 1], ms[|ms| - 1];
      && (AllValid(ms) <==> AllValid(front) && last.Valid())
      && (InfoFull(ms) <==> InfoFull(front) && (!IsGap(last) || last.LabelOrNote?))
      && (AdtlFull(ms) <==> AdtlFull(front) && !(last.LabelOrNote? && last.text == []))
  {
    assert ms == ms[..|ms| - 1] + [ms[|ms| - 1]];
    hide IsGap, Metadata.Valid;
  }

  lemma InfoStep(m: Metadata)
    requires m.Valid()
    ensures IsEven(|InfoEntry(m)|) && |InfoEntry(m)| <= Even(InfoCounted(m))
    ensures |InfoEntry(m)| == Even(InfoCounted(m)) <==> !IsGap(m) || m.LabelOrNote?
  {
    hide U32, Zeros, Chunk;
  }

  lemma AdtlStep(m: Metadata)
    requires m.Valid()
    ensures IsEven(|AdtlEntry(m)|) && |AdtlEntry(m)| <= Even(AdtlCounted(m))
    ensures |AdtlEntry(m)| == Even(AdtlCounted(m)) <==> !(m.LabelOrNote? && m.text == [])
  {
    hide U32, Zeros, Chunk, RegionHeader;
  }

  lemma EvenAdd(size: nat, n: nat)
    requires IsEven(size)
    ensures Even(size + n) == size + Even(n)
  {
  }

  lemma NoItems()
    ensures TopLevels([]) == [] && InfoEntries([]) == [] && AdtlEntries([]) == [] && InfoSize([]) == 4 == AdtlSize([])
    ensures IsEven(0) && InfoFull([]) && AdtlFull([])
  {
  }

  lemma InfoUnfolds(ms: seq<Metadata>)
    requires AllValid(ms) && ms != []
    ensures var front, last := ms[..|ms| - 1], ms[|ms| - 1];
      && AllValid(front) && last.Valid() && IsEven(InfoSize(front))
      && InfoEntries(ms) == InfoEntries(front) + InfoEntry(last)
      && InfoSize(ms) == Even(InfoSize(front) + InfoCounted(last))
  {
    hide InfoEntry, InfoCounted, Even, AllValid, InfoFull, AdtlFull, IsGap, Metadata.Valid;
    OneMoreItem(ms);
  }

  lemma AdtlUnfolds(ms: seq<Metadata>)
    requires AllValid(ms) && ms != []
    ensures var front, last := ms[..|ms| - 1], ms[|ms| - 1];
      && AllValid(front) && last.Valid() && IsEven(AdtlSize(front))
      && AdtlEntries(ms) == AdtlEntries(front) + AdtlEntry(last)
      && AdtlSize(ms) == Even(AdtlSize(front) + AdtlCounted(last))
  {
    hide AdtlEntry, AdtlCounted, Even, AllValid, InfoFull, AdtlFull, IsGap, Metadata.Valid;
    OneMoreItem(ms);
  }

  /** The INFO list's size covers what is emitted, and is exact when and only when no text or data in it is
      empty. */
  lemma {:induction false} InfoSizeExact(ms: seq<Metadata>)
    requires AllValid(ms)
    ensures IsEven(|InfoEntries(ms)|) && 4 + |InfoEntries(ms)| <= InfoSize(ms)
    ensures 4 + |InfoEntries(ms)| == InfoSize(ms) <==> InfoFull(ms)
    decreases |ms|
  {
    hide AllValid, InfoFull, AdtlFull, InfoEntry, InfoEntries, InfoSize, InfoCounted, IsGap, Even, IsEven, Metadata.Valid;
    NoItems();
    if ms != [] {
      var front, last := ms[..|ms| - 1], ms[|ms| - 1];
      OneMoreItem(ms);
      InfoUnfolds(ms);
      InfoSizeExact(front);
      InfoStep(last);
      EvenSum(|InfoEntries(front)|, |InfoEntry(last)|);
      EvenAdd(InfoSize(front), InfoCounted(last));
    }
  }

  lemma {:induction false} AdtlSizeExact(ms: seq<Metadata>)
    requires AllValid(ms)
    ensures IsEven(|AdtlEntries(ms)|) && 4 + |AdtlEntries(ms)| <= AdtlSize(ms)
    ensures 4 + |AdtlEntries(ms)| == AdtlSize(ms) <==> AdtlFull(ms)
    decreases |ms|
  {
    hide AllValid, InfoFull, AdtlFull, AdtlEntry, AdtlEntries, AdtlSize, AdtlCounted, IsGap, Even, IsEven, Metadata.Valid;
    NoItems();
    if ms != [] {
      var front, last := ms[..|ms| - 1], ms[|ms| - 1];
      OneMoreItem(ms);
      AdtlUnfolds(ms);
      AdtlSizeExact(front);
      AdtlStep(last);
      EvenSum(|AdtlEntries(front)|, |AdtlEntry(last)|);
      EvenAdd(AdtlSize(front), AdtlCounted(last));
    }
  }

  lemma TopUnfolds(ms: seq<Metadata>)
    requires AllValid(ms) && ms != []
    ensures AllValid(ms[..|ms| - 1]) && ms[|ms| - 1].Valid()
    ensures TopLevels(ms) == TopLevels(ms[..|ms| - 1]) + TopLevel(ms[|ms| - 1])
  {
    hide AllValid, TopLevel, InfoFull, AdtlFull, IsGap, Metadata.Valid;
    OneMoreItem(ms);
  }

  lemma {:induction false} TopLevelsEven(ms: seq<Metadata>)
    requires AllValid(ms)
    ensures IsEven(|TopLevels(ms)|)
    decreases |ms|
  {
    hide AllValid, InfoFull, AdtlFull, IsGap, TopLevel, TopLevels, IsEven, Metadata.Valid;
    NoItems();
    if ms != [] {
      var front, last := ms[..|ms| - 1], ms[|ms| - 1];
      OneMoreItem(ms);
      TopUnfolds(ms);
      TopLevelsEven(front);
      TopLevelEven(last);
      EvenSum(|TopLevels(front)|, |TopLevel(last)|);
    }
  }

  lemma TopLevelEven(m: Metadata)
    requires m.Valid()
    ensures IsEven(|TopLevel(m)|)
  {
    hide SmplHeader, LoopsBytes, PointsBytes, AcidBody, BextNames, BextTimes, BextRest, U32, Zeros, Chunk;
    match m
    case Smpl(_, _, _, _, _, _, _, loops, specific) => ChunkEven(SMPL_ID, SmplHeader(m) + LoopsBytes(loops) + specific);
    case Inst(settings) => ChunkEven(INST_ID, settings);
    case Cue(points) => ChunkEven(CUE_ID, U32(|points|) + PointsBytes(points));
    case Acid(_, _, _, _, _, _, _, _) => ChunkEven(ACID_ID, AcidBody(m));
    case Bext(_, _, _, _, _, _, _, _, _, history) => ChunkEven(BEXT_ID, BextNames(m) + BextTimes(m) + BextRest(m) + history);
    case Unknown(id, _, data) => ChunkEven(id, data);
    case _ =>
  }

  lemma ChunkEven(id: seq<Byte>, body: seq<Byte>)
    requires |id| == 4
    ensures IsEven(|Chunk(id, body)|) && IsEven(0)
  {
  }

  /** The total is even, as the routine asserts. */
  lemma TotalEven(ms: seq<Metadata>)
    requires AllValid(ms)
    ensures IsEven(|MetadataBytes(ms)|)
  {
    hide TopLevels, InfoEntries, AdtlEntries, InfoSize, AdtlSize, U32, HasInfo, HasAdtl, AllValid, List;
    TopLevelsEven(ms);
    InfoSizeExact(ms);
    AdtlSizeExact(ms);
    ListEven(INFO_ID, InfoSize(ms), InfoEntries(ms));
    ListEven(ADTL_ID, AdtlSize(ms), AdtlEntries(ms));
    hide IsEven;
    var t, i, a := TopLevels(ms), List(INFO_ID, InfoSize(ms), InfoEntries(ms)), List(ADTL_ID, AdtlSize(ms), AdtlEntries(ms));
    EvenSum(|t|, |i|);
    EvenSum(|t|, |a|);
    EvenSum(|t| + |i|, |a|);
  }

  lemma ListEven(id: seq<Byte>, size: nat, entries: seq<Byte>)
    requires |id| == 4 && IsEven(|entries|)
    ensures IsEven(|List(id, size, entries)|)
  {
    hide U32;
  }

  // Chunks.

  lemma ChunkIs(id: seq<Byte>, body: seq<Byte>)
    requires |id| == 4 && |body| < TWO_TO_THE_32
    ensures IsChunk(Chunk(id, body)) && Chunk(id, body)[..4] == id
  {
    LittleSizes(|body|);
    hide Little, FromLittle, Zeros;
    var e := Chunk(id, body);
    assert e[4..8] == U32(|body|);
  }

  lemma ListIs(id: seq<Byte>, size: nat, entries: seq<Byte>)
    requires |id| == 4 && size < TWO_TO_THE_32 && IsEven(size)
    ensures var e := List(id, size, entries);
      (IsChunk(e) <==> size == 4 + |entries|) && e[..4] == LIST_ID
  {
    LittleSizes(size);
    hide Little, FromLittle;
    var e := List(id, size, entries);
    assert e[4..8] == U32(size) && e[..4] == LIST_ID;
  }

  lemma TopLevelIs(m: Metadata)
    requires m.Valid() && TopLevel(m) != [] && |TopLevel(m)| < TWO_TO_THE_32
    ensures IsChunk(TopLevel(m))
    ensures TopLevel(m)[..4] == match m
      case Smpl(_, _, _, _, _, _, _, _, _) => SMPL_ID
      case Inst(_) => INST_ID
      case Cue(_) => CUE_ID
      case Acid(_, _, _, _, _, _, _, _) => ACID_ID
      case Bext(_, _, _, _, _, _, _, _, _, _) => BEXT_ID
      case Unknown(id, _, _) => id
      case _ => []
  {
    hide SmplHeader, LoopsBytes, PointsBytes, AcidBody, BextNames, BextTimes, BextRest, U32, Zeros, Chunk, IsChunk;
    match m
    case Smpl(_, _, _, _, _, _, _, loops, specific) => ChunkIs(SMPL_ID, SmplHeader(m) + LoopsBytes(loops) + specific);
    case Inst(settings) => ChunkIs(INST_ID, settings);
    case Cue(points) => ChunkIs(CUE_ID, U32(|points|) + PointsBytes(points));
    case Acid(_, _, _, _, _, _, _, _) => ChunkIs(ACID_ID, AcidBody(m));
    case Bext(_, _, _, _, _, _, _, _, _, history) => ChunkIs(BEXT_ID, BextNames(m) + BextTimes(m) + BextRest(m) + history);
    case Unknown(id, _, data) => ChunkIs(id, data);
  }

  /** Every piece the writer emits is a whole chunk exactly when no list has an empty text or empty data. */
  lemma PiecesWhole(ms: seq<Metadata>)
    requires AllValid(ms) && Sized(ms)
    ensures (forall e <- Pieces(ms) :: IsChunk(e)) <==> NoGaps(ms)
  {
    TopPiecesWhole(ms);
    InfoSizeExact(ms);
    AdtlSizeExact(ms);
    ListIs(INFO_ID, InfoSize(ms), InfoEntries(ms));
    ListIs(ADTL_ID, AdtlSize(ms), AdtlEntries(ms));
    FullOrGap(ms);
    hide IsChunk, List, TopPieces, InfoEntries, AdtlEntries, InfoSize, AdtlSize, InfoFull, AdtlFull, NoGaps;
    var top, info, adtl := TopPieces(ms), [List(INFO_ID, InfoSize(ms), InfoEntries(ms))], [List(ADTL_ID, AdtlSize(ms), AdtlEntries(ms))];
    assert forall e :: e in Pieces(ms) <==> e in top || (HasInfo(ms) && e == info[0]) || (HasAdtl(ms) && e == adtl[0]);
  }

  /** A list that is not emitted has no gaps. */
  lemma FullOrGap(ms: seq<Metadata>)
    ensures NoGaps(ms) <==> InfoFull(ms) && AdtlFull(ms)
    ensures !HasInfo(ms) ==> InfoFull(ms)
    ensures !HasAdtl(ms) ==> AdtlFull(ms)
  {
  }

  lemma {:induction false} TopPiecesWhole(ms: seq<Metadata>)
    requires AllValid(ms) && forall m <- ms :: |TopLevel(m)| < TWO_TO_THE_32
    ensures forall e <- TopPieces(ms) :: IsChunk(e)
  {
    if ms != [] {
      var front, last := ms[..|ms| - 1], ms[|ms| - 1];
      TopPiecesWhole(front);
      if TopLevel(last) != [] {
        TopLevelIs(last);
      }
    }
  }

  /** A chunk added behind others is visited last. */
  lemma {:induction false} WalkedAppends(a: seq<Byte>, e: seq<Byte>)
    requires Whole(a) && IsChunk(e)
    ensures Whole(a + e) && Walked(a + e) == Walked(a) + [e]
    decreases |a|
  {
    if a == [] {
      OneWalked(e);
      assert a + e == e && [] + [e] == [e];
    } else {
      var n := ChunkEnd(a);
      WalkedAppends(a[n..], e);
      SameHead(a, e);
      Associates([a[..n]], Walked(a[n..]), [e]);
      hide ChunkEnd;
    }
  }

  lemma OneWalked(e: seq<Byte>)
    requires IsChunk(e)
    ensures Whole(e) && Walked(e) == [e]
  {
    assert e[|e|..] == [] && e[..|e|] == e;
    assert Whole([]) && Walked([]) == [];
  }

  lemma Associates<T>(x: seq<T>, y: seq<T>, z: seq<T>)
    ensures x + (y + z) == x + y + z
  {
  }

  lemma SameHead(a: seq<Byte>, e: seq<Byte>)
    requires |a| >= 8 && ChunkEnd(a) <= |a|
    ensures var b, n := a + e, ChunkEnd(a);
      ChunkEnd(b) == n && b[n..] == a[n..] + e && b[..n] == a[..n]
  {
    hide FromLittle;
    assert (a + e)[4..8] == a[4..8];
  }

  lemma {:induction false} TopLevelsWalked(ms: seq<Metadata>)
    requires AllValid(ms) && forall m <- ms :: |TopLevel(m)| < TWO_TO_THE_32
    ensures Whole(TopLevels(ms)) && Walked(TopLevels(ms)) == TopPieces(ms)
  {
    if ms != [] {
      var front, last := ms[..|ms| - 1], ms[|ms| - 1];
      TopLevelsWalked(front);
      hide Whole, Walked, IsChunk;
      if TopLevel(last) != [] {
        TopLevelIs(last);
        WalkedAppends(TopLevels(front), TopLevel(last));
      } else {
        assert TopLevels(ms) == TopLevels(front);
      }
    }
  }

  /** Walking over the emitted metadata visits exactly the emitted chunks and ends at its last byte. */
  lemma MetadataVisited(ms: seq<Metadata>)
    requires AllValid(ms) && Sized(ms) && NoGaps(ms)
    ensures Whole(MetadataBytes(ms)) && Walked(MetadataBytes(ms)) == Pieces(ms)
  {
    TopLevelsWalked(ms);
    InfoSizeExact(ms);
    AdtlSizeExact(ms);
    FullOrGap(ms);
    ListIs(INFO_ID, InfoSize(ms), InfoEntries(ms));
    ListIs(ADTL_ID, AdtlSize(ms), AdtlEntries(ms));
    hide Whole, Walked, IsChunk, List, TopPieces, TopLevels, InfoEntries, AdtlEntries, InfoSize, AdtlSize,
      NoGaps, InfoFull, AdtlFull, HasInfo, HasAdtl, Sized, AllValid;
    var info, adtl := List(INFO_ID, InfoSize(ms), InfoEntries(ms)), List(ADTL_ID, AdtlSize(ms), AdtlEntries(ms));
    Added(TopLevels(ms), TopPieces(ms), info, HasInfo(ms));
    Added(TopLevels(ms) + (if HasInfo(ms) then info else []), TopPieces(ms) + (if HasInfo(ms) then [info] else []), adtl, HasAdtl(ms));
  }

  lemma Added(bytes: seq<Byte>, pieces: seq<seq<Byte>>, e: seq<Byte>, has: bool)
    requires Whole(bytes) && Walked(bytes) == pieces && (has ==> IsChunk(e))
    ensures var b, p := bytes + (if has then e else []), pieces + (if has then [e] else []);
      Whole(b) && Walked(b) == p
  {
    hide Whole, Walked, IsChunk;
    if has {
      WalkedAppends(bytes, e);
    } else {
      assert bytes + [] == bytes && pieces + [] == pieces;
    }
  }

  // What the reader looks into.

  /** The identifiers of chunks the reader handles are not used for unknown chunks. */
  predicate NoKnownIds(ms: seq<Metadata>) {
    forall m <- ms :: m.Unknown? && m.location == TopLevelChunk ==> SkippedId(m.id)
  }

  predicate AllSkipped(pieces: seq<seq<Byte>>) {
    forall e <- pieces :: |e| >= 4 && SkippedId(e[..4])
  }

  lemma OwnIdsSkipped()
    ensures SkippedId(SMPL_ID) && SkippedId(INST_ID) && SkippedId(CUE_ID) && SkippedId(ACID_ID)
    ensures SkippedId(BEXT_ID) && SkippedId(LIST_ID)
  {
    assert SMPL_ID[0] == 0x73 && INST_ID[0] == 0x69 && CUE_ID[0] == 0x63 && ACID_ID[0] == 0x61 && BEXT_ID[0] == 0x62
      && LIST_ID[0] == 0x4C && FMT_ID[0] == 0x66 && DATA_ID[0] == 0x64 && FACT_ID[0] == 0x66;
  }

  /** The reader steps over whole chunks exactly when it knows none of them. */
  lemma {:induction false} SkippableWalk(e: seq<Byte>)
    requires Whole(e)
    ensures Skippable(e) <==> AllSkipped(Walked(e))
    ensures Skippable(e) ==> ChunkCount(e) == |Walked(e)|
    decreases |e|
  {
    if e != [] {
      var n := ChunkEnd(e);
      SkippableWalk(e[n..]);
      FirstOfPieces(e[..n], Walked(e[n..]));
      assert e[..n][..4] == e[..4];
    }
  }

  lemma FirstOfPieces(first: seq<Byte>, rest: seq<seq<Byte>>)
    ensures AllSkipped([first] + rest) <==> |first| >= 4 && SkippedId(first[..4]) && AllSkipped(rest)
  {
    var all := [first] + rest;
    assert first in all && forall e :: e in all <==> e == first || e in rest;
    hide SkippedId;
  }

  lemma {:induction false} TopPiecesSkipped(ms: seq<Metadata>)
    requires AllValid(ms) && forall m <- ms :: |TopLevel(m)| < TWO_TO_THE_32
    ensures AllSkipped(TopPieces(ms)) <==> NoKnownIds(ms)
  {
    if ms != [] {
      var front, last := ms[..|ms| - 1], ms[|ms| - 1];
      TopPiecesSkipped(front);
      NoKnownIdsUnfolds(ms);
      hide TopLevel, SkippedId, NoKnownIds, AllSkipped, IsChunk;
      if TopLevel(last) != [] {
        TopLevelSkipped(last);
        LastOfPieces(TopPieces(front), TopLevel(last));
      } else {
        NothingEmittedFor(last);
        assert TopPieces(front) + [] == TopPieces(front);
      }
    }
  }

  lemma NoKnownIdsUnfolds(ms: seq<Metadata>)
    requires ms != []
    ensures var front, last := ms[..|ms| - 1], ms[|ms| - 1];
      NoKnownIds(ms) <==> NoKnownIds(front) && (last.Unknown? && last.location == TopLevelChunk ==> SkippedId(last.id))
  {
    assert ms == ms[..|ms| - 1] + [ms[|ms| - 1]];
    hide SkippedId;
  }

  lemma TopLevelSkipped(m: Metadata)
    requires m.Valid() && TopLevel(m) != [] && |TopLevel(m)| < TWO_TO_THE_32
    ensures |TopLevel(m)| >= 4
    ensures SkippedId(TopLevel(m)[..4]) <==> (m.Unknown? && m.location == TopLevelChunk ==> SkippedId(m.id))
  {
    OwnIdsSkipped();
    TopLevelIs(m);
    NothingButUnknown(m);
    hide TopLevel, SkippedId;
  }

  /** An unknown item emitted in the first pass is a top-level one. */
  lemma NothingButUnknown(m: Metadata)
    requires m.Valid() && TopLevel(m) != []
    ensures m.Smpl? || m.Inst? || m.Cue? || m.Acid? || m.Bext? || (m.Unknown? && m.location == TopLevelChunk)
  {
    hide Zeros;
  }

  lemma NothingEmittedFor(m: Metadata)
    requires m.Valid() && TopLevel(m) == []
    ensures !(m.Unknown? && m.location == TopLevelChunk)
  {
    hide Zeros;
  }

  lemma LastOfPieces(front: seq<seq<Byte>>, last: seq<Byte>)
    ensures AllSkipped(front + [last]) <==> AllSkipped(front) && |last| >= 4 && SkippedId(last[..4])
  {
    var all := front + [last];
    assert all[|front|] == last && forall e :: e in all <==> e == last || e in front;
    hide SkippedId;
  }

  /** The reader steps over the whole of the emitted metadata, piece by piece, exactly when no unknown chunk has an
      identifier it acts on. */
  lemma MetadataSkipped(ms: seq<Metadata>)
    requires AllValid(ms) && Sized(ms) && NoGaps(ms)
    ensures Skippable(MetadataBytes(ms)) <==> NoKnownIds(ms)
    ensures Skippable(MetadataBytes(ms)) ==> ChunkCount(MetadataBytes(ms)) == |Pieces(ms)|
  {
    hide Whole, Walked, List, TopPieces, TopLevel, InfoEntries, AdtlEntries, InfoSize, AdtlSize, NoKnownIds, HasInfo, HasAdtl,
      AllValid, NoGaps, MetadataBytes, Skippable, ChunkCount, SkippedId, IsChunk, AllSkipped;
    MetadataVisited(ms);
    SkippableWalk(MetadataBytes(ms));
    TopPiecesSkipped(ms);
    OwnIdsSkipped();
    ListIs(INFO_ID, InfoSize(ms), InfoEntries(ms));
    ListIs(ADTL_ID, AdtlSize(ms), AdtlEntries(ms));
    var info, adtl := List(INFO_ID, InfoSize(ms), InfoEntries(ms)), List(ADTL_ID, AdtlSize(ms), AdtlEntries(ms));
    var first := TopPieces(ms) + if HasInfo(ms) then [info] else [];
    LastOfPieces(TopPieces(ms), info);
    LastOfPieces(first, adtl);
    assert TopPieces(ms) + [] == TopPieces(ms) && first + [] == first;
  }

  /** A file written with metadata reads back as one without: the reader steps over every piece of it. */
  method WriteTaggedThenRead(format: DataFormat, ms: seq<Metadata>, writes: seq<Write>, asked: seq<nat>)
      returns (info: Info, pieces: seq<seq<Byte>>)
    requires Accepted(format) && Readable(FmtOf(format)) && FmtOf(format).bitsPerSample % 8 == 0
    requires AllGiven(FmtOf(format), writes)
    requires FramesOf(writes) * FmtOf(format).channels * FmtOf(format).bitsPerSample < TWO_TO_THE_64
    requires format.container == Riff ==> |Written(FmtOf(format), writes)| < MAX_UINT32
    requires AllValid(ms) && Sized(ms) && NoGaps(ms) && NoKnownIds(ms)
    requires format.container == Riff ==> |MetadataBytes(ms)| + 44 <= MAX_INT32
    requires |Written(FmtOf(format), writes)| + |MetadataBytes(ms)| + 400 < TWO_TO_THE_64
    ensures info.container == format.container && info.fmt == FmtOf(format) && info.totalFrames == FramesOf(writes)
    ensures var samples, bpf := Written(FmtOf(format), writes), BytesPerFrame(info.fmt, info.fmt.formatTag);
      |samples| == FramesOf(writes) * bpf && pieces == Portions(samples, bpf, asked, FramesOf(writes))
    ensures AskedFor(asked) >= FramesOf(writes) ==> Joined(pieces) == Written(FmtOf(format), writes)
  {
    hide AllValid, Sized, NoGaps, NoKnownIds, MetadataBytes, Pieces, FmtOf, Readable, FrameBytes, Skippable, ChunkCount,
      AllGiven, Written, FramesOf, AskedFor, Joined, BytesPerFrame, Portions;
    MetadataSkipped(ms);
    var stream := new MemoryStreamWrite();
    var n := WriteOrCount(stream, ms);
    assert stream.data == MetadataBytes(ms);
    info, pieces := WriteThenRead(format, stream.data, writes, asked);
  }
}
