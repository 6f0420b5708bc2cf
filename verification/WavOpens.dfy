/** What opening a file of any chunks finds (core-interface/wav/dr_wav.h: `drwav_init__internal`): the format its last
    "fmt " chunk says, the count of a W64 "fact" chunk, and otherwise as many frames as the data has. */
module WavOpens {
  import Powers
  import opened Bytes
  import opened WavFormat
  import opened WavParser
  import opened WavRoundTrip
  import opened WavPieces

  /** The format tag that counts: an extensible format names another. */
  function TagOf(p: Progress): nat {
    if p.fmt.formatTag == EXTENSIBLE then p.subFormat else p.fmt.formatTag
  }

  /** A file opens exactly when its chunks give a plausible format whose frames have a size; then at its data, with what
      the chunks say. A RIFF file of the largest size is read to its end first. */
  lemma Opens(d: seq<Byte>, c: Container, head: Head, xs: seq<Piece>, size: nat)
    requires Stands(d, 0, FrontBytes(c, head, xs, size)) && ValidFront(c, head, xs, size) && |d| < TWO_TO_THE_64
    ensures |FrontBytes(c, head, xs, size)| <= |d|
    ensures var p, start := Learned(c, head, xs), |FrontBytes(c, head, xs, size)|;
      if p.foundFmt && Plausible(p.fmt) && Supported(p.fmt, TagOf(p)) then
        var toEnd := size == MAX_UINT32 && (c == Riff || c == Rifx);
        var n := DataBytes(p.fmt, TagOf(p), if toEnd then |d| - start else if c == Rf64 then head.dataSize else size);
        Parse(d) == Opened(Info(c, p.fmt, TagOf(p), start, n, TotalFrames(p.fmt, TagOf(p), p.sampleCount, n), if toEnd then |d| else start))
      else Parse(d) == Invalid
  {
    hide Stands, FrontBytes, Learned, Plausible, Supported, DataBytes, TotalFrames, Parse, ValidFront;
    FrontParsed(d, c, head, xs, size);
  }

  /** The format is that of the last "fmt " chunk. */
  lemma {:induction false} LastFmt(c: Container, p: Progress, xs: seq<Piece>, i: nat)
    requires i < |xs| && xs[i].FmtPiece? && forall j | i < j < |xs| :: !xs[j].FmtPiece?
    ensures var q := LearnAll(c, p, xs);
      && q.foundFmt && q.fmt == xs[i].fmt && q.subFormat == if xs[i].tail.Extensible? then xs[i].tail.subFormat else 0
    decreases |xs|
  {
    if i > 0 {
      LastFmt(c, Learn(c, p, xs[0]), xs[1..], i - 1);
    } else {
      NoFmt(c, Learn(c, p, xs[0]), xs[1..]);
    }
  }

  lemma {:induction false} NoFmt(c: Container, p: Progress, xs: seq<Piece>)
    requires forall x <- xs :: !x.FmtPiece?
    ensures var q := LearnAll(c, p, xs);
      q.foundFmt == p.foundFmt && q.fmt == p.fmt && q.subFormat == p.subFormat
    decreases |xs|
  {
    if xs != [] {
      NoFmt(c, Learn(c, p, xs[0]), xs[1..]);
    }
  }

  /** The number of samples is that of the last "fact" chunk of a W64 file; a RIFF file's is not used, and an RF64
      file's is the one in its header. */
  lemma {:induction false} LastFact(c: Container, p: Progress, xs: seq<Piece>, i: nat)
    requires i < |xs| && xs[i].FactPiece? && forall j | i < j < |xs| :: !xs[j].FactPiece?
    ensures LearnAll(c, p, xs).sampleCount == if c == W64 then xs[i].count else if c == Rf64 then p.sampleCount else 0
    decreases |xs|
  {
    if i > 0 {
      LastFact(c, Learn(c, p, xs[0]), xs[1..], i - 1);
    } else {
      NoFact(c, Learn(c, p, xs[0]), xs[1..]);
    }
  }

  lemma {:induction false} NoFact(c: Container, p: Progress, xs: seq<Piece>)
    requires c == Rf64 || forall x <- xs :: !x.FactPiece?
    ensures LearnAll(c, p, xs).sampleCount == p.sampleCount
    decreases |xs|
  {
    if xs != [] {
      NoFact(c, Learn(c, p, xs[0]), xs[1..]);
    }
  }

  lemma {:induction false} RiffCountsNothing(c: Container, p: Progress, xs: seq<Piece>)
    requires (c == Riff || c == Rifx) && p.sampleCount == 0
    ensures LearnAll(c, p, xs).sampleCount == 0
    decreases |xs|
  {
    if xs != [] {
      RiffCountsNothing(c, Learn(c, p, xs[0]), xs[1..]);
    }
  }

  /** An extensible format opens as the one it names, which stands at offset 24 of its chunk's body. */
  lemma ExtensibleOpens(d: seq<Byte>, c: Container, head: Head, xs: seq<Piece>, size: nat, i: nat)
    requires Stands(d, 0, FrontBytes(c, head, xs, size)) && ValidFront(c, head, xs, size) && |d| < TWO_TO_THE_64
    requires i < |xs| && xs[i].FmtPiece? && forall j | i < j < |xs| :: !xs[j].FmtPiece?
    requires xs[i].tail.Extensible? && Plausible(xs[i].fmt) && Supported(xs[i].fmt, xs[i].tail.subFormat)
    ensures Parse(d).Opened? && Parse(d).info.fmt == xs[i].fmt && Parse(d).info.translatedFormatTag == xs[i].tail.subFormat
    ensures |Body(c, xs[i])| == 40 + |xs[i].tail.rest| && Number(c, Body(c, xs[i])[24..26]) == xs[i].tail.subFormat
  {
    hide Stands, FrontBytes, Plausible, Supported, DataBytes, TotalFrames, Parse, Number, Stored;
    Opens(d, c, head, xs, size);
    LastFmt(c, Progress(|head.Bytes(c)|, |head.Bytes(c)|, false, NO_FMT, 0, if c == Rf64 then head.count else 0), xs, i);
    assert ValidPiece(c, xs[i]);
    SubFormatAt(c, xs[i]);
  }

  lemma SubFormatAt(c: Container, x: Piece)
    requires x.FmtPiece? && x.tail.Extensible? && x.tail.Valid()
    ensures |Body(c, x)| == 40 + |x.tail.rest| && Number(c, Body(c, x)[24..26]) == x.tail.subFormat
  {
    hide Stored, Number, FmtFields;
    var t := x.tail;
    var body, ext := Body(c, x), Stored(c, t.validBits, 2) + Stored(c, t.mask, 4) + Stored(c, t.subFormat, 2) + t.guid;
    assert body == FmtFields(c, x.fmt) + (Stored(c, 22, 2) + ext + t.rest);
    assert body[24..26] == ext[6..8] == Stored(c, t.subFormat, 2);
    StoredRead(c, t.subFormat, 2);
  }

  /** The count of a W64 file's last "fact" chunk, and of an RF64 file's header, is the number of frames, unless it is
      zero. */
  lemma CountOpens(d: seq<Byte>, c: Container, head: Head, xs: seq<Piece>, size: nat, count: nat)
    requires Stands(d, 0, FrontBytes(c, head, xs, size)) && ValidFront(c, head, xs, size) && |d| < TWO_TO_THE_64
    requires count > 0 && Parse(d).Opened?
    requires (c == Rf64 && count == head.count)
          || (c == W64 && exists i :: 0 <= i < |xs| && IsLastFact(xs, i) && count == xs[i].count)
    ensures Parse(d).info.totalFrames == count
  {
    hide Stands, FrontBytes, Plausible, Supported, DataBytes, Parse, BlockFrames, FrameCount;
    Opens(d, c, head, xs, size);
    var p := Progress(|head.Bytes(c)|, |head.Bytes(c)|, false, NO_FMT, 0, if c == Rf64 then head.count else 0);
    if c == W64 {
      var i :| 0 <= i < |xs| && IsLastFact(xs, i) && count == xs[i].count;
      LastFact(c, p, xs, i);
    } else {
      NoFact(c, p, xs);
    }
  }

  predicate IsLastFact(xs: seq<Piece>, i: nat)
    requires i < |xs|
  {
    xs[i].FactPiece? && forall j | i < j < |xs| :: !xs[j].FactPiece?
  }

  // The number of frames.

  /** Of samples of whole bytes: `frames` frames, and perhaps a part of another. */
  lemma PcmCounted(fmt: Fmt, tag: nat, frames: nat, rest: nat)
    requires fmt.bitsPerSample % 8 == 0 && fmt.bitsPerSample > 0 && fmt.channels > 0 && fmt.blockAlign > 0
    requires !IsCompressed(tag) && tag != ALAW && tag != MULAW && rest < fmt.channels * (fmt.bitsPerSample / 8)
    ensures Supported(fmt, tag)
    ensures var frame := fmt.channels * (fmt.bitsPerSample / 8);
      && frames * frame >= 0
      && DataBytes(fmt, tag, frames * frame + rest) == frames * frame && TotalFrames(fmt, tag, 0, frames * frame) == frames
  {
    var frame := fmt.channels * (fmt.bitsPerSample / 8);
    FrameBytesAre(fmt, tag);
    hide BytesPerFrame;
    assert frames * frame >= 0;
    Powers.DivModUnique(frames * frame + rest, frame, frames, rest);
    Powers.DivModUnique(frames * frame, frame, frames, 0);
  }

  lemma FrameBytesAre(fmt: Fmt, tag: nat)
    requires fmt.bitsPerSample % 8 == 0 && fmt.bitsPerSample > 0 && fmt.channels > 0 && tag != ALAW && tag != MULAW
    ensures BytesPerFrame(fmt, tag) == fmt.channels * (fmt.bitsPerSample / 8) > 0
  {
    var k := fmt.bitsPerSample / 8;
    assert fmt.bitsPerSample * fmt.channels == 8 * (fmt.channels * k);
    Powers.IntScale(1, k, fmt.channels);
    assert fmt.channels * k == k * fmt.channels;
  }

  /** The quotient and remainder of a size by a block's, as a number of blocks that start in it. */
  lemma BlocksIn(size: nat, block: nat, q: nat, last: nat)
    requires 0 < last <= block && size == q * block + last
    ensures (size / block * block < size || last == block) && size / block + (if size / block * block < size then 1 else 0) == q + 1
  {
    if last == block {
      assert (q + 1) * block == q * block + block;
      Powers.DivModUnique(size, block, q + 1, 0);
    } else {
      Powers.DivModUnique(size, block, q, last);
    }
  }

  /** Of IMA ADPCM: each block has the frame of its header and eight for every group. There are `q` blocks of `b` units
      of four bytes a channel, and a last one of `m`. */
  lemma ImaCounted(fmt: Fmt, b: nat, q: nat, m: nat, size: nat)
    requires (fmt.channels == 1 || fmt.channels == 2) && 0 < m <= b && Supported(fmt, DVI_ADPCM)
    requires fmt.blockAlign == 4 * fmt.channels * b && size == q * fmt.blockAlign + 4 * fmt.channels * m < 0x2000_0000_0000_0000
    ensures fmt.blockAlign > 0 && DataBytes(fmt, DVI_ADPCM, size) == size
    ensures TotalFrames(fmt, DVI_ADPCM, 0, size) == q * (8 * b - 7) + 8 * m - 7
  {
    hide Supported;
    var ch, block := fmt.channels, fmt.blockAlign;
    UnitSizes(ch, b, m, q);
    BlocksIn(size, block, q, 4 * ch * m);
    var blocks := q + 1;
    ImaBlockFrames(fmt, size, blocks, q * b + m);
  }

  lemma UnitSizes(ch: nat, b: nat, m: nat, q: nat)
    requires (ch == 1 || ch == 2) && 0 < m <= b
    ensures 0 < 4 * ch * m <= 4 * ch * b
    ensures q * (4 * ch * b) + 4 * ch * m == 4 * ch * (q * b + m)
    ensures q + 1 <= q * b + m && q * (8 * b - 7) + 8 * m - 7 == 8 * (q * b + m) - 7 * (q + 1)
  {
    FramesOfUnits(b, m, q);
    if ch == 1 {
      BytesOfUnits(4, b, q);
    } else {
      BytesOfUnits(8, b, q);
    }
  }

  lemma FramesOfUnits(b: nat, m: nat, q: nat)
    requires 0 < m <= b
    ensures q <= q * b && q * (8 * b - 7) == 8 * (q * b) - 7 * q
  {
    Powers.MulAtLeast(q, b, 1);
  }

  lemma BytesOfUnits(unit: nat, b: nat, q: nat)
    ensures q * (unit * b) == unit * (q * b)
  {
  }

  lemma ImaBlockFrames(fmt: Fmt, size: nat, blocks: nat, units: nat)
    requires (fmt.channels == 1 || fmt.channels == 2) && fmt.blockAlign > 0 && Supported(fmt, DVI_ADPCM)
    requires size == 4 * fmt.channels * units < 0x2000_0000_0000_0000 && blocks <= units
    requires blocks == size / fmt.blockAlign + if size / fmt.blockAlign * fmt.blockAlign < size then 1 else 0
    ensures TotalFrames(fmt, DVI_ADPCM, 0, size) == 8 * (units - blocks) + blocks
  {
    hide Supported, Wrap64;
    var ch := fmt.channels;
    HeadersOff(ch, units, blocks);
    assert blocks * (4 * ch) == 4 * ch * blocks;
  }

  /** Two frames for every byte of a channel that is not a header's. */
  lemma HeadersOff(ch: nat, units: nat, blocks: nat)
    requires (ch == 1 || ch == 2) && blocks <= units && 4 * ch * units < 0x2000_0000_0000_0000
    ensures 0 <= 4 * ch * blocks < TWO_TO_THE_64 && 0 <= 4 * ch * units - 4 * ch * blocks
    ensures var x := (4 * ch * units - 4 * ch * blocks) * 2;
      0 <= x < TWO_TO_THE_64 && x / ch == 8 * (units - blocks)
  {
    if ch == 1 {
    } else {
      assert ch == 2;
    }
  }

  /** Of MS ADPCM: each block has the two frames of its header of seven bytes a channel, and two for every byte of a
      channel. */
  lemma AdpcmCounted(fmt: Fmt, q: nat, size: nat)
    requires (fmt.channels == 1 || fmt.channels == 2) && fmt.blockAlign >= 7 * fmt.channels && Supported(fmt, ADPCM)
    requires size == q * fmt.blockAlign < 0x2000_0000_0000_0000
    ensures TotalFrames(fmt, ADPCM, 0, size) == q * (2 + 2 * (fmt.blockAlign - 7 * fmt.channels) / fmt.channels)
  {
    hide Supported, Wrap64;
    var ch, block := fmt.channels, fmt.blockAlign;
    Powers.DivModUnique(size, block, q, 0);
    if ch == 1 {
      AdpcmMono(block, q);
    } else {
      AdpcmStereo(block, q);
    }
  }

  lemma AdpcmMono(block: nat, q: nat)
    requires block >= 7 && q * block < 0x2000_0000_0000_0000
    ensures 0 <= q * 6 <= q * block && (q * block - q * 6) * 2 == q * (2 + 2 * (block - 7))
  {
    Powers.MulAtLeast(q, block, 7);
    assert q * (2 + 2 * (block - 7)) == 2 * (q * block) - 12 * q;
  }

  lemma AdpcmStereo(block: nat, q: nat)
    requires block >= 14 && q * block < 0x2000_0000_0000_0000
    ensures 0 <= q * 12 <= q * block && q * block - q * 12 == q * (2 + 2 * (block - 14) / 2)
  {
    Powers.MulAtLeast(q, block, 14);
    assert 2 + 2 * (block - 14) / 2 == block - 12;
    assert q * (block - 12) == q * block - 12 * q;
  }

  /** Of samples that are not whole bytes: blocks of the size the format gives. */
  lemma BlocksCounted(fmt: Fmt, tag: nat, frames: nat, rest: nat)
    requires fmt.bitsPerSample % 8 != 0 && !IsCompressed(tag) && tag != ALAW && tag != MULAW && fmt.channels > 0
    requires rest < fmt.blockAlign
    ensures Supported(fmt, tag)
    ensures frames * fmt.blockAlign >= 0 && DataBytes(fmt, tag, frames * fmt.blockAlign + rest) == frames * fmt.blockAlign
    ensures TotalFrames(fmt, tag, 0, frames * fmt.blockAlign) == frames
  {
    assert frames * fmt.blockAlign >= 0;
    Powers.DivModUnique(frames * fmt.blockAlign + rest, fmt.blockAlign, frames, rest);
    Powers.DivModUnique(frames * fmt.blockAlign, fmt.blockAlign, frames, 0);
  }

  /** A-law and mu-law samples have eight bits. */
  lemma LawSupported(fmt: Fmt, tag: nat)
    requires (tag == ALAW || tag == MULAW) && fmt.bitsPerSample % 8 == 0 && fmt.channels > 0
    ensures Supported(fmt, tag) <==> fmt.bitsPerSample == 8
  {
    var k := fmt.bitsPerSample / 8;
    assert fmt.bitsPerSample * fmt.channels == 8 * (k * fmt.channels);
    Powers.IntScaleStrictBoth(k, 1, fmt.channels);
  }

  // Files that do not open.

  /** A file that ends without a data chunk. */
  lemma NoDataRejected(d: seq<Byte>, c: Container, head: Head, xs: seq<Piece>)
    requires Stands(d, 0, head.Bytes(c) + PiecesBytes(c, xs)) && head.Valid(c) && ValidPieces(c, xs)
    requires |d| < TWO_TO_THE_64 && |d| < |head.Bytes(c)| + |PiecesBytes(c, xs)| + HeaderBytes(c)
    ensures Parse(d) == Invalid
  {
    hide Stands, Head.Bytes, PiecesBytes, ReadOpening, Finish, LearnAll, ValidPiece, Head.Valid, Number;
    StandsInside(d, 0, head.Bytes(c) + PiecesBytes(c, xs));
    StandsApart(d, 0, head.Bytes(c), PiecesBytes(c, xs));
    HeadRead(d, c, head);
    PiecesCounted(c, xs);
    var m := |head.Bytes(c)|;
    PiecesWalked(d, c, Progress(m, m, false, NO_FMT, 0, if c == Rf64 then head.count else 0), xs, Enough(d));
  }

  /** An extensible format whose extension has another size than 22 bytes. */
  lemma WrongExtensionRejected(d: seq<Byte>, c: Container, p: Progress, n: nat, size: nat)
    requires p.fmt.formatTag == EXTENSIBLE && n != 22 && 0 < n < 0x1_0000 && Stands(d, p.pos, Stored(c, n, 2))
    ensures ReadExtension(d, c, p, size) == Reject
  {
    hide Stored, Number;
    NumberOf(d, c, p.pos, n, 2);
  }
}
