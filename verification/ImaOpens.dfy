/** The number of frames an IMA ADPCM file is opened with (core-interface/wav/dr_wav.h: `drwav_init__internal`) is the
    number its blocks hold: all of them are decoded, and nothing is left of the data. */
module ImaOpens {
  import Powers
  import opened Bytes
  import opened WavFormat
  import opened WavParser
  import opened WavRoundTrip
  import opened WavPieces
  import opened WavOpens
  import opened ImaDecoder
  import opened ImaSamples

  /** The data of `f` is `q` whole blocks of `b` units of four bytes a channel, and a block of `m`. */
  predicate Blocks(f: Stream, b: nat, q: nat, m: nat) {
    && f.Valid() && 0 < m <= b && f.blockAlign == Units(f, b)
    && f.dataPos + q * f.blockAlign + Units(f, m) <= |f.data|
    && forall k | 0 <= k <= q :: GoodBlock(f, k)
  }

  predicate GoodBlock(f: Stream, k: nat)
    requires f.Valid()
  {
    k * f.blockAlign >= 0 && HasHeader(f, f.dataPos + k * f.blockAlign)
  }

  lemma BlockFramesAre(f: Stream, b: nat)
    requires f.Valid() && b > 0 && f.blockAlign == Units(f, b)
    ensures Grouped(f) && FramesInBlock(f) == 8 * b - 7
  {
  }

  /** Where a frame is, told by the blocks before its own. */
  lemma PlaceIs(f: Stream, k: nat, j: nat)
    requires Grouped(f) && j < FramesInBlock(f)
    ensures var n := k * FramesInBlock(f) + j;
      n >= 0 && BlockOf(f, n) == f.dataPos + k * f.blockAlign && PlaceOf(f, n) == j
  {
    hide FramesInBlock;
    assert k * FramesInBlock(f) >= 0;
    Powers.DivModUnique(k * FramesInBlock(f) + j, FramesInBlock(f), k, j);
  }

  lemma FrameThere(f: Stream, b: nat, q: nat, m: nat, k: nat, j: nat)
    requires Blocks(f, b, q, m) && (k < q || (k == q && j < 8 * m - 7)) && j < 8 * b - 7
    ensures k * f.blockAlign >= 0 && HasFrame(f, f.dataPos + k * f.blockAlign, j)
  {
    hide HasHeader, HasFrame, Units;
    assert GoodBlock(f, k);
    hide GoodBlock;
    if k < q {
      assert f.blockAlign == Units(f, b);
      BlockInside(k, q, f.blockAlign);
      RoomFor(f, f.dataPos + k * f.blockAlign, b, j);
    } else {
      RoomFor(f, f.dataPos + k * f.blockAlign, m, j);
    }
  }

  lemma BlockInside(k: nat, q: nat, block: nat)
    requires k < q
    ensures k * block + block <= q * block
  {
    if block > 0 {
      Powers.IntScaleStrictBoth(k, q, block);
    }
  }

  lemma RoomFor(f: Stream, p: nat, m: nat, j: nat)
    requires f.Valid() && HasHeader(f, p) && p + Units(f, m) <= |f.data| && j < 8 * m - 7
    ensures HasFrame(f, p, j)
  {
    hide HasHeader;
  }

  /** The frames of `q` blocks of `b` units and one of `m`: one for each header, and eight for each further unit. */
  function FramesHeld(b: nat, q: nat, m: nat): (r: nat)
    requires 0 < m <= b
    ensures r > 0
  {
    Powers.MulAtLeast(q, 8 * b - 7, 0);
    q * (8 * b - 7) + 8 * m - 7
  }

  lemma FramesHeldIs(f: Stream, b: nat, q: nat, m: nat)
    requires Grouped(f) && 0 < m <= b && FramesInBlock(f) == 8 * b - 7
    ensures q * FramesInBlock(f) >= 0 && FramesHeld(b, q, m) == q * FramesInBlock(f) + 8 * m - 7
    ensures FramesHeld(b, q, b) == (q + 1) * FramesInBlock(f)
  {
    hide FramesInBlock;
    OneMoreTimes(q, FramesInBlock(f));
  }

  /** Every frame of the blocks can be decoded, and there is no further one in data that ends with them. */
  lemma AllThere(f: Stream, b: nat, q: nat, m: nat, i: nat)
    requires Blocks(f, b, q, m)
    ensures Grouped(f)
    ensures i < FramesHeld(b, q, m) ==> Present(f, i)
    ensures i == FramesHeld(b, q, m) && |f.data| == f.dataPos + q * f.blockAlign + Units(f, m) ==> !Present(f, i)
  {
    hide HasFrame, GoodBlock;
    BlockFramesAre(f, b);
    hide FramesInBlock, FramesHeld;
    FramesHeldIs(f, b, q, m);
    if i < FramesHeld(b, q, m) {
      var r := FramesInBlock(f);
      Powers.DivModFacts(i, r);
      var k, j := i / r, i % r;
      PlaceIs(f, k, j);
      Powers.IntScaleStrictBoth(q, k, r);
      FrameThere(f, b, q, m, k, j);
    } else if |f.data| == f.dataPos + q * f.blockAlign + Units(f, m) {
      FrameAfter(f, b, q, m);
    }
  }

  /** The first frame after the blocks. */
  lemma FrameAfter(f: Stream, b: nat, q: nat, m: nat)
    requires Grouped(f) && 0 < m <= b && f.blockAlign == Units(f, b) && FramesInBlock(f) == 8 * b - 7
    requires |f.data| == f.dataPos + q * f.blockAlign + Units(f, m)
    ensures !Present(f, FramesHeld(b, q, m))
  {
    hide FramesInBlock, FramesHeld, HasFrame, Units;
    FramesHeldIs(f, b, q, m);
    assert q * f.blockAlign >= 0 && (q + 1) * f.blockAlign >= 0;
    if m < b {
      PlaceIs(f, q, 8 * m - 7);
      CutGroup(f, f.dataPos + q * f.blockAlign, m);
    } else {
      PlaceIs(f, q + 1, 0);
      OneMoreTimes(q, f.blockAlign);
      CutHeader(f, f.dataPos + (q + 1) * f.blockAlign);
    }
  }

  lemma CutGroup(f: Stream, p: nat, m: nat)
    requires f.Valid() && m > 0 && |f.data| == p + Units(f, m)
    ensures !HasFrame(f, p, 8 * m - 7)
  {
    hide HasHeader;
  }

  lemma CutHeader(f: Stream, p: nat)
    requires f.Valid() && |f.data| == p
    ensures !HasFrame(f, p, 0)
  {
  }

  /** Decoding as many frames as the blocks hold uses up the data. */
  lemma DecodesAll(f: Stream, b: nat, q: nat, m: nat)
    requires Blocks(f, b, q, m) && f.total == FramesHeld(b, q, m)
    ensures After(f, Start(f), f.total).Some?
    ensures var u := After(f, Start(f), f.total).value;
      u.pos == f.dataPos + q * f.blockAlign + Units(f, m) && u.count == 0 && u.blockBytes == f.blockAlign - Units(f, m)
  {
    hide HasFrame, GoodBlock, State.Valid, Present, After, HasHeader, FramesHeld, At, Units, Start;
    var n := f.total;
    BlockFramesAre(f, b);
    forall i: nat | i < n
      ensures Present(f, i)
    {
      AllThere(f, b, q, m, i);
    }
    AllStand(f, n);
    FramesHeldIs(f, b, q, m);
    PlaceIs(f, q, 8 * m - 8);
    LastStands(f, After(f, Start(f), n).value, f.dataPos + q * f.blockAlign, m);
  }

  lemma LastStands(f: Stream, u: State, p: nat, m: nat)
    requires f.Valid() && u.Valid(f) && m > 0 && At(f, u, p, 8 * m - 8, 0)
    ensures u.pos == p + Units(f, m) && u.count == 0 && u.blockBytes == f.blockAlign - Units(f, m)
  {
    hide State.Valid, HasFrame, ChannelIn;
    assert GroupsFor(8 * m - 8) == m - 1;
  }

  /** An opened file as the decoder sees it. */
  function StreamOf(d: seq<Byte>, info: Info): Stream {
    Stream(d, info.dataPos, info.fmt.channels, info.fmt.blockAlign, info.totalFrames)
  }

  /** Opening a file of IMA ADPCM blocks, whole ones and perhaps a shorter last one, gives the number of frames they hold:
      decoding them all succeeds, and ends where the data does. */
  lemma OpenedFramesDecode(d: seq<Byte>, c: Container, head: Head, xs: seq<Piece>, size: nat, b: nat, q: nat, m: nat)
    requires Stands(d, 0, FrontBytes(c, head, xs, size)) && ValidFront(c, head, xs, size) && |d| < 0x2000_0000_0000_0000
    requires |FrontBytes(c, head, xs, size)| < 0x8000_0000 && (c == Riff || c == Rifx ==> size < MAX_UINT32)
    requires var p, n := Learned(c, head, xs), if c == Rf64 then head.dataSize else size;
      && p.foundFmt && Plausible(p.fmt) && TagOf(p) == DVI_ADPCM && Supported(p.fmt, DVI_ADPCM)
      && (c == W64 || c == Rf64 ==> p.sampleCount == 0)
      && n == q * p.fmt.blockAlign + 4 * p.fmt.channels * m
      && Blocks(Stream(d, |FrontBytes(c, head, xs, size)|, p.fmt.channels, p.fmt.blockAlign, 0), b, q, m)
    ensures Parse(d).Opened? && 0 < m <= b
    ensures var f := StreamOf(d, Parse(d).info);
      && f.Valid() && f.total == FramesHeld(b, q, m) && After(f, Start(f), f.total).Some?
      && var u := After(f, Start(f), f.total).value;
         u.pos == f.dataPos + Parse(d).info.dataSize && u.count == 0 && u.cursor == Parse(d).info.totalFrames
  {
    hide Stands, FrontBytes, Learned, Plausible, Supported, Parse, ValidFront, Blocks, DataBytes, TotalFrames, After, State.Valid;
    var p, start, n := Learned(c, head, xs), |FrontBytes(c, head, xs, size)|, if c == Rf64 then head.dataSize else size;
    var f0 := Stream(d, start, p.fmt.channels, p.fmt.blockAlign, 0);
    NoCount(c, head, xs);
    Opens(d, c, head, xs, size);
    BlockSizes(f0, b, q, m);
    ImaCounted(p.fmt, b, q, m, n);
    var f := StreamOf(d, Parse(d).info);
    SameBlocks(f0, f, b, q, m);
    DecodesAll(f, b, q, m);
  }

  lemma NoCount(c: Container, head: Head, xs: seq<Piece>)
    ensures c == Riff || c == Rifx ==> Learned(c, head, xs).sampleCount == 0
  {
    if c == Riff || c == Rifx {
      RiffCountsNothing(c, Progress(|head.Bytes(c)|, |head.Bytes(c)|, false, NO_FMT, 0, 0), xs);
    }
  }

  lemma BlockSizes(f: Stream, b: nat, q: nat, m: nat)
    requires Blocks(f, b, q, m)
    ensures f.Valid() && 0 < m <= b && f.blockAlign == 4 * f.channels * b && Units(f, m) == 4 * f.channels * m
    ensures f.dataPos + q * f.blockAlign + Units(f, m) <= |f.data| && q * f.blockAlign >= 0
  {
    hide GoodBlock;
    assert q * f.blockAlign >= 0;
  }

  /** The blocks do not depend on the number of frames. */
  lemma SameBlocks(f: Stream, f': Stream, b: nat, q: nat, m: nat)
    requires Blocks(f, b, q, m) && f' == f.(total := f'.total)
    ensures Blocks(f', b, q, m)
  {
    forall k: nat | 0 <= k <= q
      ensures GoodBlock(f', k)
    {
      assert GoodBlock(f, k);
    }
    hide GoodBlock;
  }
}
