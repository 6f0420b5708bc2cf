/** The containers and headers of WAV files (core-interface/wav/dr_wav.h; RIFF/WAVE: chapters 2 and 3 of
    Multimedia Programming Interface and Data Specifications 1.0). */
module WavFormat {
  import opened Bytes

  datatype Container = Riff | Rifx | W64 | Rf64

  /** `drwav_data_format`. */
  datatype DataFormat = DataFormat(container: Container, format: nat, channels: nat, sampleRate: nat, bitsPerSample: nat)

  /** `drwav_fmt`, as far as the "fmt " chunk of 16 bytes goes. */
  datatype Fmt = Fmt(
    formatTag: nat, channels: nat, sampleRate: nat, avgBytesPerSec: nat, blockAlign: nat, bitsPerSample: nat)
  {
    predicate Valid() {
      && formatTag < 0x1_0000 && channels < 0x1_0000 && sampleRate < 0x1_0000_0000
      && avgBytesPerSec < 0x1_0000_0000 && blockAlign < 0x1_0000 && bitsPerSample < 0x1_0000
    }
  }

  const ADPCM := 2
  const ALAW := 6
  const MULAW := 7
  const DVI_ADPCM := 0x11
  const EXTENSIBLE := 0xFFFE
  const MAX_SAMPLE_RATE := 384000
  const MAX_CHANNELS := 256
  const MAX_BITS_PER_SAMPLE := 64
  const MAX_UINT32 := 0xFFFF_FFFF
  const TWO_TO_THE_32 := 0x1_0000_0000
  const TWO_TO_THE_64 := 0x1_0000_0000_0000_0000

  // Chunk identifiers.

  const RIFF_ID: seq<Byte> := [0x52, 0x49, 0x46, 0x46]
  const RIFX_ID: seq<Byte> := [0x52, 0x49, 0x46, 0x58]
  const RF64_ID: seq<Byte> := [0x52, 0x46, 0x36, 0x34]
  const WAVE_ID: seq<Byte> := [0x57, 0x41, 0x56, 0x45]
  const DS64_ID: seq<Byte> := [0x64, 0x73, 0x36, 0x34]
  const FMT_ID: seq<Byte> := [0x66, 0x6D, 0x74, 0x20]
  const DATA_ID: seq<Byte> := [0x64, 0x61, 0x74, 0x61]
  const FACT_ID: seq<Byte> := [0x66, 0x61, 0x63, 0x74]
  const W64_RIFF_ID: seq<Byte> := [0x72, 0x69, 0x66, 0x66, 0x2E, 0x91, 0xCF, 0x11, 0xA5, 0xD6, 0x28, 0xDB, 0x04, 0xC1, 0x00, 0x00]
  const W64_TAIL: seq<Byte> := [0xF3, 0xAC, 0xD3, 0x11, 0x8C, 0xD1, 0x00, 0xC0, 0x4F, 0x8E, 0xDB, 0x8A]
  const W64_WAVE_ID: seq<Byte> := [0x77, 0x61, 0x76, 0x65] + W64_TAIL
  const W64_FMT_ID: seq<Byte> := FMT_ID + W64_TAIL
  const W64_FACT_ID: seq<Byte> := FACT_ID + W64_TAIL
  const W64_DATA_ID: seq<Byte> := DATA_ID + W64_TAIL

  /** The identifiers of the chunks the reader knows. */
  function FmtId(c: Container): (r: seq<Byte>)
    ensures |r| == if c == W64 then 16 else 4
  {
    if c == W64 then W64_FMT_ID else FMT_ID
  }

  function DataId(c: Container): (r: seq<Byte>)
    ensures |r| == if c == W64 then 16 else 4
  {
    if c == W64 then W64_DATA_ID else DATA_ID
  }

  function FactId(c: Container): (r: seq<Byte>)
    ensures |r| == if c == W64 then 16 else 4
  {
    if c == W64 then W64_FACT_ID else FACT_ID
  }


  // Numbers in bytes.

  function Little(x: nat, n: nat): (r: seq<Byte>)
    ensures |r| == n
  {
    if n == 0 then [] else [x % 256] + Little(x / 256, n - 1)
  }

  function FromLittle(s: seq<Byte>): nat {
    if s == [] then 0 else s[0] + 256 * FromLittle(s[1..])
  }

  function FromBig(s: seq<Byte>): nat {
    if s == [] then 0 else 256 * FromBig(s[..|s| - 1]) + s[|s| - 1]
  }

  /** A number as the container stores it. */
  function Number(c: Container, s: seq<Byte>): nat {
    if c == Rifx then FromBig(s) else FromLittle(s)
  }

  function Power256(n: nat): (p: nat)
    ensures p > 0
  {
    if n == 0 then 1 else 256 * Power256(n - 1)
  }

  lemma {:induction false} LittleRoundTrip(x: nat, n: nat)
    requires x < Power256(n)
    ensures FromLittle(Little(x, n)) == x
  {
    if n > 0 {
      LittleRoundTrip(x / 256, n - 1);
      assert Little(x, n)[1..] == Little(x / 256, n - 1);
    }
  }

  lemma LittleSizes(x: nat)
    ensures x < 0x1_0000 ==> FromLittle(Little(x, 2)) == x
    ensures x < TWO_TO_THE_32 ==> FromLittle(Little(x, 4)) == x
    ensures x < TWO_TO_THE_64 ==> FromLittle(Little(x, 8)) == x
  {
    Power256Values();
    if x < 0x1_0000 { LittleRoundTrip(x, 2); }
    if x < TWO_TO_THE_32 { LittleRoundTrip(x, 4); }
    if x < TWO_TO_THE_64 { LittleRoundTrip(x, 8); }
  }

  lemma Power256Values()
    ensures Power256(2) == 0x1_0000 && Power256(4) == TWO_TO_THE_32 && Power256(8) == TWO_TO_THE_64
  {
    assert Power256(1) == 256;
    assert Power256(3) == 0x100_0000;
    assert Power256(5) == 0x100_0000_0000;
    assert Power256(6) == 0x1_0000_0000_0000;
    assert Power256(7) == 0x100_0000_0000_0000;
  }

  // Sizes.

  function PaddingRiff(size: nat): nat { size % 2 }

  function PaddingW64(size: nat): nat { size % 8 }

  function Padding(c: Container, size: nat): nat {
    if c == W64 then PaddingW64(size) else PaddingRiff(size)
  }

  /** `drwav_get_bytes_per_pcm_frame`; zero for what cannot be decoded. */
  function BytesPerFrame(fmt: Fmt, translatedFormatTag: nat): nat {
    var n := if fmt.bitsPerSample % 8 == 0 then fmt.bitsPerSample * fmt.channels / 8 else fmt.blockAlign;
    if (translatedFormatTag == ALAW || translatedFormatTag == MULAW) && n != fmt.channels then 0 else n
  }

  function Min(a: nat, b: nat): nat { if a < b then a else b }

  /** The sizes the writer puts into the headers at the end; `extra` is the size of the metadata chunks. */
  function RiffChunkSize(c: Container, extra: nat, n: nat): nat {
    match c
    case W64 => 80 + 24 + n + PaddingW64(n)
    case Rf64 => Min(4 + 36 + 24 + extra + 8 + n + PaddingRiff(n), MAX_UINT32)
    case _ => Min(4 + 24 + extra + 8 + n + PaddingRiff(n), MAX_UINT32)
  }

  function DataChunkSize(c: Container, n: nat): nat {
    match c
    case W64 => 24 + n
    case Rf64 => n
    case _ => Min(n, MAX_UINT32)
  }

  /** The body of the "fmt " chunk. */
  function FmtBytes(fmt: Fmt): (r: seq<Byte>)
    ensures |r| == 16
  {
    Little(fmt.formatTag, 2) + Little(fmt.channels, 2) + Little(fmt.sampleRate, 4)
    + Little(fmt.avgBytesPerSec, 4) + Little(fmt.blockAlign, 2) + Little(fmt.bitsPerSample, 2)
  }

  function ReadFmt(c: Container, s: seq<Byte>): (fmt: Fmt)
    requires |s| == 16
  {
    Fmt(Number(c, s[0..2]), Number(c, s[2..4]), Number(c, s[4..8]), Number(c, s[8..12]), Number(c, s[12..14]), Number(c, s[14..16]))
  }

  lemma FmtRoundTrip(c: Container, fmt: Fmt)
    requires fmt.Valid() && c != Rifx
    ensures ReadFmt(c, FmtBytes(fmt)) == fmt
  {
    LittleSizes(fmt.formatTag);
    LittleSizes(fmt.channels);
    LittleSizes(fmt.sampleRate);
    LittleSizes(fmt.avgBytesPerSec);
    LittleSizes(fmt.blockAlign);
    LittleSizes(fmt.bitsPerSample);
    hide Little, FromLittle;
    var a, b, d, e, g, h := Little(fmt.formatTag, 2), Little(fmt.channels, 2), Little(fmt.sampleRate, 4),
      Little(fmt.avgBytesPerSec, 4), Little(fmt.blockAlign, 2), Little(fmt.bitsPerSample, 2);
    var s := a + b + d + e + g + h;
    assert s[0..2] == a && s[2..4] == b && s[4..8] == d && s[8..12] == e && s[12..14] == g && s[14..16] == h;
  }
}
