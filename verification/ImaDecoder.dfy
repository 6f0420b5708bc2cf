/** The IMA ADPCM decoder (core-interface/wav/dr_wav.h: `drwav_read_pcm_frames_s16__ima`) as a machine that
    delivers one frame at a time. */
module ImaDecoder {
  import opened Bytes

  const INDEX_TABLE: seq<int> := [-1, -1, -1, -1, 2, 4, 6, 8, -1, -1, -1, -1, 2, 4, 6, 8]

  const STEP_TABLE: seq<nat> :=
    [7, 8, 9, 10, 11, 12, 13, 14, 16, 17]
    + [19, 21, 23, 25, 28, 31, 34, 37, 41, 45]
    + [50, 55, 60, 66, 73, 80, 88, 97, 107, 118]
    + [130, 143, 157, 173, 190, 209, 230, 253, 279, 307]
    + [337, 371, 408, 449, 494, 544, 598, 658, 724, 796]
    + [876, 963, 1060, 1166, 1282, 1411, 1552, 1707, 1878, 2066]
    + [2272, 2499, 2749, 3024, 3327, 3660, 4026, 4428, 4871, 5358]
    + [5894, 6484, 7132, 7845, 8630, 9493, 10442, 11487, 12635, 13899]
    + [15289, 16818, 18500, 20350, 22385, 24623, 27086, 29794, 32767]

  /** The values of a 32-bit unsigned field: `bytesRemainingInBlock` wraps around. */
  const TWO_TO_THE_32: nat := 0x1_0000_0000

  function Wrap32(x: int): nat {
    x % TWO_TO_THE_32
  }

  /** What does not change while a file is read: the memory stream, where its data chunk starts, and the
      format. */
  datatype Stream = Stream(data: seq<Byte>, dataPos: nat, channels: nat, blockAlign: nat, total: nat) {
    predicate Valid() {
      (channels == 1 || channels == 2) && dataPos <= |data| && dataPos < 0x8000_0000 && blockAlign < 0x10000
    }
  }

  /** The read position, `readCursorInPCMFrames` and the fields of `ima`. */
  datatype State = State(
    pos: nat,
    cursor: nat,
    blockBytes: nat,                            // bytesRemainingInBlock
    predictor: seq<int>,
    stepIndex: seq<int>,
    cached: seq<int>,                           // cachedFrames
    count: nat)                                 // cachedFrameCount
  {
    /** What every step keeps: the tables and the cache are indexed in bounds, and samples have 16 bits. */
    predicate Valid(f: Stream) {
      && pos <= |f.data| && blockBytes < TWO_TO_THE_32
      && |predictor| == 2 && |stepIndex| == 2 && |cached| == 16 && count <= 8
      && (forall c | 0 <= c < 2 :: IsSample(predictor[c]) && 0 <= stepIndex[c] < |STEP_TABLE|)
      && forall k | 0 <= k < 16 :: IsSample(cached[k])
    }
  }

  predicate IsSample(x: int) {
    -32768 <= x <= 32767
  }

  function Clamp(x: int, lo: int, hi: int): (r: int)
    requires lo <= hi
    ensures lo <= r <= hi && (lo <= x <= hi ==> r == x) && (x < lo ==> r == lo) && (x > hi ==> r == hi)
  {
    if x < lo then lo else if x > hi then hi else x
  }

  /** The state right after opening a file, and after seeking back to the first frame. */
  function Start(f: Stream): (r: State)
    requires f.Valid()
    ensures r.Valid(f)
  {
    State(f.dataPos, 0, 0, [0, 0], [0, 0], seq(16, _ => 0), 0)
  }

  /** How far a nibble moves the predictor. */
  function Difference(step: nat, nibble: nat): int {
    var diff := step / 8
      + (if nibble % 2 == 1 then step / 4 else 0)
      + (if nibble / 2 % 2 == 1 then step / 2 else 0)
      + (if nibble / 4 % 2 == 1 then step else 0);
    if nibble / 8 % 2 == 1 then -diff else diff
  }

  /** One nibble of channel `c`: sample `k` of the eight in a group. */
  function PutNibble(f: Stream, s: State, c: nat, k: nat, nibble: nat): (r: State)
    requires f.Valid() && s.Valid(f) && c < f.channels && k < 8 && nibble < 16
    ensures r.Valid(f)
  {
    var step := STEP_TABLE[s.stepIndex[c]];
    var predictor := Clamp(s.predictor[c] + Difference(step, nibble), -32768, 32767);
    s.(predictor := s.predictor[c := predictor],
       stepIndex := s.stepIndex[c := Clamp(s.stepIndex[c] + INDEX_TABLE[nibble], 0, |STEP_TABLE| - 1)],
       cached := s.cached[16 - 8 * f.channels + k * f.channels + c := predictor])
  }

  /** The first `n` bytes of a group of channel `c`, low nibble first. */
  function PutBytes(f: Stream, s: State, c: nat, bytes: seq<Byte>, n: nat): (r: State)
    requires f.Valid() && s.Valid(f) && c < f.channels && n <= |bytes| == 4
    ensures r.Valid(f) && r.pos == s.pos && r.cursor == s.cursor && r.blockBytes == s.blockBytes && r.count == s.count
  {
    if n == 0 then s
    else
      var b := bytes[n - 1];
      PutNibble(f, PutNibble(f, PutBytes(f, s, c, bytes, n - 1), c, 2 * (n - 1), b % 16), c, 2 * (n - 1) + 1, b / 16)
  }

  /** The group of channel `c`: four bytes. */
  function ReadGroup(f: Stream, s: State, c: nat): (r: Option<State>)
    requires f.Valid() && s.Valid(f) && c < f.channels
    ensures r.Some? ==> r.value.Valid(f) && r.value.cursor == s.cursor && r.value.count == s.count
  {
    if s.pos + 4 > |f.data| then None
    else
      Some(PutBytes(f, s.(pos := s.pos + 4, blockBytes := Wrap32(s.blockBytes - 4)), c, f.data[s.pos..s.pos + 4], 4))
  }

  /** The groups of the first `n` channels. */
  function LoadGroups(f: Stream, s: State, n: nat): (r: Option<State>)
    requires f.Valid() && s.Valid(f) && n <= f.channels
    ensures r.Some? ==> r.value.Valid(f) && r.value.cursor == s.cursor && r.value.count == s.count
  {
    if n == 0 then Some(s)
    else
      match LoadGroups(f, s, n - 1)
      case None => None
      case Some(t) => ReadGroup(f, t, n - 1)
  }

  /** Eight frames into the empty cache, from the current block. */
  function LoadMore(f: Stream, s: State): (r: Option<State>)
    requires f.Valid() && s.Valid(f)
    ensures r.Some? ==> r.value.Valid(f) && r.value.cursor == s.cursor && r.value.count == 8
  {
    LoadGroups(f, s.(count := 8), f.channels)
  }

  /** A 16-bit little-endian number, signed. */
  function Signed16(lo: Byte, hi: Byte): (r: int)
    ensures IsSample(r) && (r - (lo + 256 * hi)) % 0x10000 == 0
  {
    var x := lo + 256 * hi;
    if x < 0x8000 then x else x - 0x10000
  }

  /** The header of channel `c` in a new block's header. */
  function PutHeader(f: Stream, s: State, c: nat, header: seq<Byte>): (r: State)
    requires f.Valid() && s.Valid(f) && c < f.channels && |header| == 4 * f.channels && header[4 * c + 2] < |STEP_TABLE|
    ensures r.Valid(f)
  {
    var p := Signed16(header[4 * c], header[4 * c + 1]);
    s.(predictor := s.predictor[c := p], stepIndex := s.stepIndex[c := header[4 * c + 2]],
       cached := s.cached[16 - f.channels + c := p])
  }

  /** A new block's header, whose samples are the block's first frame. */
  function LoadBlock(f: Stream, s: State): (r: Option<State>)
    requires f.Valid() && s.Valid(f)
    ensures r.Some? ==> r.value.Valid(f) && r.value.cursor == s.cursor && r.value.count == 1
  {
    var size := 4 * f.channels;
    if s.pos + size > |f.data| then None
    else
      var header := f.data[s.pos..s.pos + size];
      var t := s.(pos := s.pos + size, blockBytes := Wrap32(f.blockAlign - size), count := 1);
      if header[2] >= |STEP_TABLE| || (f.channels == 2 && header[6] >= |STEP_TABLE|) then None
      else
        var u := PutHeader(f, t, 0, header);
        Some(if f.channels == 1 then u else PutHeader(f, u, 1, header))
  }

  /** The state with a frame in the cache, if there is one to be had. */
  function Ready(f: Stream, s: State): (r: Option<State>)
    requires f.Valid() && s.Valid(f)
    ensures r.Some? ==> r.value.Valid(f) && r.value.cursor == s.cursor && r.value.count > 0
  {
    if s.count > 0 then Some(s)
    else if s.blockBytes == 0 then LoadBlock(f, s)
    else LoadMore(f, s)
  }

  // What a failed attempt leaves.

  /** The groups before the one that cannot be read; what was left of the stream is used up. */
  function StuckGroups(f: Stream, s: State, n: nat): (r: State)
    requires f.Valid() && s.Valid(f) && n <= f.channels && LoadGroups(f, s, n).None?
    ensures r.Valid(f) && r.cursor == s.cursor && r.pos == |f.data|
  {
    match LoadGroups(f, s, n - 1)
    case None => StuckGroups(f, s, n - 1)
    case Some(t) => t.(pos := |f.data|)
  }

  function StuckMore(f: Stream, s: State): (r: State)
    requires f.Valid() && s.Valid(f) && LoadMore(f, s).None?
    ensures r.Valid(f) && r.cursor == s.cursor && r.count == 0 && r.pos == |f.data|
  {
    StuckGroups(f, s.(count := 8), f.channels).(count := 0)
  }

  /** A header cut short uses up the stream; one with a bad step index is left out with the rest of its block, as far
      as the stream can be moved. */
  function StuckBlock(f: Stream, s: State): (r: State)
    requires f.Valid() && s.Valid(f) && LoadBlock(f, s).None?
    ensures r.Valid(f) && r.cursor == s.cursor && r.count == s.count
  {
    var size := 4 * f.channels;
    if s.pos + size > |f.data| then s.(pos := |f.data|)
    else
      var target := s.pos + size + ToInt32(Wrap32(f.blockAlign - size));
      s.(pos := if 0 <= target <= |f.data| then target else s.pos + size, blockBytes := 0)
  }

  /** The state after the attempt to get a frame into the cache. */
  function Stuck(f: Stream, s: State): (r: State)
    requires f.Valid() && s.Valid(f) && Ready(f, s).None?
    ensures r.Valid(f) && r.cursor == s.cursor && r.count == 0
  {
    if s.blockBytes == 0 then StuckBlock(f, s) else StuckMore(f, s)
  }

  /** The oldest frame in the cache. */
  function Oldest(f: Stream, s: State): (frame: seq<int>)
    requires f.Valid() && s.Valid(f) && s.count > 0
    ensures |frame| == f.channels
  {
    var i := 16 - s.count * f.channels;
    s.cached[i..i + f.channels]
  }

  function Drop(s: State): State
    requires s.count > 0
  {
    s.(count := s.count - 1, cursor := s.cursor + 1)
  }

  /** One frame, and the state after it. */
  function NextFrame(f: Stream, s: State): (r: Option<(seq<int>, State)>)
    requires f.Valid() && s.Valid(f)
    ensures r.Some? ==> |r.value.0| == f.channels && r.value.1.Valid(f) && r.value.1.cursor == s.cursor + 1
  {
    if s.cursor >= f.total then None
    else
      match Ready(f, s)
      case None => None
      case Some(t) => Some((Oldest(f, t), Drop(t)))
  }

  /** What a read leaves when it has to stop before it has all its frames. At the last frame of the file it has already
      loaded more of the block, unless it delivered none. */
  function Left(f: Stream, s: State, delivered: bool): (r: State)
    requires f.Valid() && s.Valid(f) && NextFrame(f, s).None?
    ensures r.Valid(f) && r.cursor == s.cursor
  {
    if s.cursor < f.total then Stuck(f, s)
    else if delivered && s.count == 0 && s.blockBytes != 0 then
      match LoadMore(f, s)
      case None => StuckMore(f, s)
      case Some(t) => t
    else s
  }

  /** The state after `n` frames. */
  function After(f: Stream, s: State, n: nat): (r: Option<State>)
    requires f.Valid() && s.Valid(f)
    ensures r.Some? ==> r.value.Valid(f) && r.value.cursor == s.cursor + n
  {
    if n == 0 then Some(s)
    else
      match After(f, s, n - 1)
      case None => None
      case Some(t) =>
        match NextFrame(f, t)
        case None => None
        case Some(u) => Some(u.1)
  }

  /** The samples of the first `n` frames, if there are as many. */
  function Samples(f: Stream, s: State, n: nat): (r: seq<int>)
    requires f.Valid() && s.Valid(f)
    ensures After(f, s, n).Some? ==> |r| == n * f.channels
  {
    if n == 0 || After(f, s, n).None? then []
    else
      var t := After(f, s, n - 1).value;
      SampleCount(n, f.channels);
      Samples(f, s, n - 1) + NextFrame(f, t).value.0
  }

  lemma SampleCount(n: nat, channels: nat)
    requires n > 0
    ensures n * channels == (n - 1) * channels + channels
  {
  }

  // Decoding is a run of single frames.

  lemma {:induction false} AfterAdd(f: Stream, s: State, n: nat, m: nat)
    requires f.Valid() && s.Valid(f) && After(f, s, n).Some?
    ensures After(f, s, n + m) == After(f, After(f, s, n).value, m)
  {
    hide NextFrame, State.Valid;
    if m > 0 {
      AfterAdd(f, s, n, m - 1);
    }
  }

  lemma {:induction false} AfterPrefix(f: Stream, s: State, n: nat, m: nat)
    requires f.Valid() && s.Valid(f) && n <= m && After(f, s, m).Some?
    ensures After(f, s, n).Some?
  {
    hide NextFrame, State.Valid;
    if n < m {
      AfterPrefix(f, s, n, m - 1);
    }
  }

  lemma {:induction false} SamplesAdd(f: Stream, s: State, n: nat, m: nat)
    requires f.Valid() && s.Valid(f) && After(f, s, n).Some? && After(f, After(f, s, n).value, m).Some?
    ensures After(f, s, n + m).Some?
    ensures Samples(f, s, n + m) == Samples(f, s, n) + Samples(f, After(f, s, n).value, m)
  {
    hide NextFrame, State.Valid;
    AfterAdd(f, s, n, m);
    if m > 0 {
      AfterAdd(f, s, n, m - 1);
      SamplesAdd(f, s, n, m - 1);
    }
  }
}
