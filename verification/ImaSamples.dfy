/** Which samples an IMA ADPCM file decodes to, told by the bytes of its blocks (core-interface/wav/dr_wav.h:
    `drwav_read_pcm_frames_s16__ima`) and not by the decoder: every block is a header with its first frame, and groups of
    eight frames, four bytes a channel. */
module ImaSamples {
  import opened Bytes
  import opened Words
  import Powers
  import opened ImaDecoder

  /** A channel between two frames: its last sample, and its place in the step table. */
  datatype Level = Level(sample: int, index: nat)

  /** How far the low three bits of a nibble move a sample: an eighth of the step, and as much of the step itself, of
      its half and of its quarter as the bits say. */
  function Distance(step: nat, m: nat): nat
    requires m < 8
  {
    step / 8 + (if m % 2 == 1 then step / 4 else 0) + (if m % 4 >= 2 then step / 2 else 0) + (if m >= 4 then step else 0)
  }

  /** That is `m` and a half quarters of the step, but for what the divisions lose. */
  lemma DistanceBounds(step: nat, m: nat)
    requires m < 8
    ensures Times(2 * m + 1, step) - 24 < 8 * Distance(step, m) <= Times(2 * m + 1, step)
  {
    var q, h, s, t := (if m % 2 == 1 then 1 else 0), (if m % 4 >= 2 then 1 else 0), if m >= 4 then 1 else 0, Times(2 * m + 1, step);
    assert m == q + 2 * h + 4 * s;
    TimesSum(q, h, s, step);
  }

  lemma TimesSum(q: nat, h: nat, s: nat, step: nat)
    ensures Times(2 * (q + 2 * h + 4 * s) + 1, step) == step + 2 * Times(q, step) + 4 * Times(h, step) + 8 * Times(s, step)
    ensures Times(0, step) == 0 && Times(1, step) == step
  {
  }

  /** A step is a tenth larger than the one before, rounded. */
  predicate TenthUp(i: nat)
    requires i + 1 < |STEP_TABLE|
  {
    11 * STEP_TABLE[i] <= 10 * STEP_TABLE[i + 1] + 8 && 10 * STEP_TABLE[i + 1] <= 11 * STEP_TABLE[i] + 8
  }

  lemma FirstSteps(i: nat)
    requires i < 30
    ensures TenthUp(i)
  {
  }

  lemma MiddleSteps(i: nat)
    requires 30 <= i < 60
    ensures TenthUp(i)
  {
  }

  lemma LastSteps(i: nat)
    requires 60 <= i < 87
    ensures TenthUp(i)
  {
  }

  /** The table goes from 7 to the largest sample, a tenth at a time. */
  lemma StepsGrow()
    ensures |STEP_TABLE| == 89 && STEP_TABLE[0] == 7 && STEP_TABLE[88] == 32767
    ensures forall i | 0 <= i < 87 :: TenthUp(i)
  {
    forall i: nat | 0 <= i < 87
      ensures TenthUp(i)
    {
      if i < 30 {
        FirstSteps(i);
      } else if i < 60 {
        MiddleSteps(i);
      } else {
        LastSteps(i);
      }
    }
  }

  /** The next sample and place: down where bit 3 is set, and on in the table for a large move, back one for a small. */
  function Moved(l: Level, nibble: nat): (r: Level)
    requires l.index < |STEP_TABLE| && nibble < 16
    ensures r.index < |STEP_TABLE|
  {
    var m := nibble % 8;
    var d := Distance(STEP_TABLE[l.index], m);
    Level(Clamp(if nibble >= 8 then l.sample - d else l.sample + d, -32768, 32767),
          Clamp(l.index + (if m < 4 then -1 else 2 * (m - 3)), 0, |STEP_TABLE| - 1))
  }

  /** `n` times four bytes a channel. */
  function Units(f: Stream, n: nat): nat {
    if f.channels == 1 then 4 * n else 8 * n
  }

  /** The block at `p` has a header that can be used. */
  predicate HasHeader(f: Stream, p: nat)
    requires f.Valid()
  {
    p + Units(f, 1) <= |f.data| && forall c | 0 <= c < f.channels :: f.data[p + 4 * c + 2] < |STEP_TABLE|
  }

  /** The block at `p` is there up to its frame `j`. */
  predicate HasFrame(f: Stream, p: nat, j: nat)
    requires f.Valid()
  {
    HasHeader(f, p) && p + Units(f, 1 + (j + 7) / 8) <= |f.data|
  }

  /** The nibble that leads from frame `j` of a block to the next one, in channel `c`. */
  function Nibble(f: Stream, p: nat, c: nat, j: nat): (r: nat)
    requires f.Valid() && c < f.channels && HasFrame(f, p, j + 1)
    ensures r < 16
  {
    var b := f.data[p + Units(f, 1) + Units(f, j / 8) + 4 * c + j % 8 / 2];
    if j % 2 == 0 then b % 16 else b / 16
  }

  /** The channel at frame `j` of a block. */
  function LevelAt(f: Stream, p: nat, c: nat, j: nat): (r: Level)
    requires f.Valid() && c < f.channels && HasFrame(f, p, j)
    ensures r.index < |STEP_TABLE|
  {
    if j == 0 then Level(Signed16(f.data[p + 4 * c], f.data[p + 4 * c + 1]), f.data[p + 4 * c + 2])
    else Moved(LevelAt(f, p, c, j - 1), Nibble(f, p, c, j - 1))
  }

  function SampleAt(f: Stream, p: nat, c: nat, j: nat): int
    requires f.Valid() && c < f.channels && HasFrame(f, p, j)
  {
    LevelAt(f, p, c, j).sample
  }

  // One block.

  /** Where the cache has channel `c` of the frame that `n - 1` others follow. */
  function Slot(f: Stream, n: nat, c: nat): int {
    16 - (if f.channels == 1 then n else 2 * n) + c
  }

  ghost predicate Levels(f: Stream, s: State, p: nat, c: nat, j: nat)
    requires f.Valid() && s.Valid(f)
  {
    c < f.channels && HasFrame(f, p, j) && Level(s.predictor[c], s.stepIndex[c]) == LevelAt(f, p, c, j)
  }

  /** The cache holds the frames of the block up to `j`, from the one `hi - 1` before it to the one `lo - 1` before it. */
  ghost predicate Cached(f: Stream, s: State, p: nat, c: nat, j: nat, lo: nat, hi: nat)
    requires f.Valid() && s.Valid(f)
  {
    && c < f.channels && HasFrame(f, p, j) && 1 <= lo && hi <= 8 && hi <= j + 1
    && forall q | lo <= q <= hi :: s.cached[Slot(f, q, c)] == SampleAt(f, p, c, j + 1 - q)
  }

  /** The decoder is in the block at `p` and has loaded `g` groups. */
  ghost predicate InBlock(f: Stream, s: State, p: nat, g: nat)
    requires f.Valid() && s.Valid(f)
  {
    && s.pos == p + Units(f, 1 + g) && s.blockBytes == f.blockAlign - Units(f, 1 + g)
    && HasFrame(f, p, 8 * g) && s.count <= 8 * g + 1
    && forall c | 0 <= c < f.channels :: ChannelIn(f, s, p, c, g)
  }

  ghost predicate ChannelIn(f: Stream, s: State, p: nat, c: nat, g: nat)
    requires f.Valid() && s.Valid(f)
  {
    Levels(f, s, p, c, 8 * g) && Cached(f, s, p, c, 8 * g, 1, s.count)
  }

  lemma SmallDifference(step: nat, nibble: nat)
    requires nibble < 16
    ensures var d := Distance(step, nibble % 8);
      Difference(step, nibble) == if nibble >= 8 then -(d as int) else d
  {
  }

  lemma IndexMove(nibble: nat)
    requires nibble < 16
    ensures INDEX_TABLE[nibble] == if nibble % 8 < 4 then -1 else 2 * (nibble % 8 - 3)
  {
  }

  /** One nibble moves its channel, and fills one slot of the cache. */
  lemma PutMoves(f: Stream, s: State, c: nat, k: nat, nibble: nat)
    requires f.Valid() && s.Valid(f) && c < f.channels && k < 8 && nibble < 16
    ensures var u := PutNibble(f, s, c, k, nibble);
      && Level(u.predictor[c], u.stepIndex[c]) == Moved(Level(s.predictor[c], s.stepIndex[c]), nibble)
      && u == s.(predictor := u.predictor, stepIndex := u.stepIndex, cached := s.cached[Slot(f, 8 - k, c) := u.predictor[c]])
      && forall e | 0 <= e < 2 && e != c :: u.predictor[e] == s.predictor[e] && u.stepIndex[e] == s.stepIndex[e]
  {
    hide Difference, Distance, Clamp;
    SmallDifference(STEP_TABLE[s.stepIndex[c]], nibble);
    IndexMove(nibble);
  }

  /** What a group of channel `c` leaves alone: the other channel, and its frames in the cache. */
  ghost predicate OthersKept(f: Stream, s: State, u: State, c: nat)
    requires f.Valid() && s.Valid(f) && u.Valid(f)
  {
    && (forall e | 0 <= e < 2 && e != c :: u.predictor[e] == s.predictor[e] && u.stepIndex[e] == s.stepIndex[e])
    && forall q, e | 1 <= q <= 8 && 0 <= e < f.channels && e != c :: u.cached[Slot(f, q, e)] == s.cached[Slot(f, q, e)]
  }

  lemma NibbleMoves(f: Stream, s: State, p: nat, c: nat, g: nat, k: nat)
    requires f.Valid() && s.Valid(f) && k < 8 && Levels(f, s, p, c, 8 * g + k) && HasFrame(f, p, 8 * g + 8)
    ensures HasFrame(f, p, 8 * g + k + 1)
    ensures Levels(f, PutNibble(f, s, c, k, Nibble(f, p, c, 8 * g + k)), p, c, 8 * g + k + 1)
  {
    hide State.Valid, Stream.Valid, HasFrame, Nibble, Moved, PutNibble, LevelAt;
    FramesBefore(f, p, 8 * g + k + 1, 8 * g + 8);
    NextLevel(f, p, c, 8 * g + k);
    PutMoves(f, s, c, k, Nibble(f, p, c, 8 * g + k));
  }

  lemma NextLevel(f: Stream, p: nat, c: nat, j: nat)
    requires f.Valid() && c < f.channels && HasFrame(f, p, j + 1)
    ensures HasFrame(f, p, j) && LevelAt(f, p, c, j + 1) == Moved(LevelAt(f, p, c, j), Nibble(f, p, c, j))
  {
    hide Nibble, Moved, HasHeader;
  }

  lemma SlotsApart(f: Stream, cached: seq<int>, r: nat, c: nat, x: int)
    requires f.Valid() && |cached| == 16 && 1 <= r <= 8 && c < f.channels
    ensures var now := cached[Slot(f, r, c) := x];
      && now[Slot(f, r, c)] == x
      && forall q, e | 1 <= q <= 8 && 0 <= e < f.channels && (q != r || e != c) :: now[Slot(f, q, e)] == cached[Slot(f, q, e)]
  {
  }

  lemma Sizes(f: Stream, s: State)
    requires f.Valid() && s.Valid(f)
    ensures |s.cached| == 16 && |s.predictor| == 2 && f.channels <= 2 && s.blockBytes < TWO_TO_THE_32
  {
  }

  lemma NibblePut(f: Stream, s: State, p: nat, c: nat, g: nat, k: nat)
    requires f.Valid() && s.Valid(f) && k < 8 && Levels(f, s, p, c, 8 * g + k) && Cached(f, s, p, c, 8 * g + 8, 9 - k, 8)
    ensures HasFrame(f, p, 8 * g + k + 1)
    ensures var u := PutNibble(f, s, c, k, Nibble(f, p, c, 8 * g + k));
      Levels(f, u, p, c, 8 * g + k + 1) && Cached(f, u, p, c, 8 * g + 8, 8 - k, 8) && OthersKept(f, s, u, c)
  {
    hide State.Valid, HasHeader, Nibble, Moved, PutNibble, LevelAt, Slot, Stream.Valid, HasFrame;
    NibbleMoves(f, s, p, c, g, k);
    PutMoves(f, s, c, k, Nibble(f, p, c, 8 * g + k));
    var u := PutNibble(f, s, c, k, Nibble(f, p, c, 8 * g + k));
    Sizes(f, s);
    Sizes(f, u);
    SlotsApart(f, s.cached, 8 - k, c, u.predictor[c]);
  }

  /** Where the bytes of group `g` of channel `c` are. */
  function GroupPos(f: Stream, p: nat, c: nat, g: nat): nat {
    p + Units(f, 1) + Units(f, g) + 4 * c
  }

  lemma NibbleIs(f: Stream, p: nat, c: nat, g: nat, b: nat)
    requires f.Valid() && c < f.channels && b < 4 && HasFrame(f, p, 8 * g + 8)
    ensures HasFrame(f, p, 8 * g + 2 * b + 1) && HasFrame(f, p, 8 * g + 2 * b + 2) && GroupPos(f, p, c, g) + 4 <= |f.data|
    ensures Nibble(f, p, c, 8 * g + 2 * b) == f.data[GroupPos(f, p, c, g) + b] % 16
    ensures Nibble(f, p, c, 8 * g + 2 * b + 1) == f.data[GroupPos(f, p, c, g) + b] / 16
  {
    hide HasHeader;
  }

  /** The nibbles of the first `n` bytes of a group, low half first. */
  lemma {:induction false} BytesPut(f: Stream, s: State, p: nat, c: nat, g: nat, bytes: seq<Byte>, n: nat)
    requires f.Valid() && s.Valid(f) && Levels(f, s, p, c, 8 * g) && HasFrame(f, p, 8 * g + 8) && n <= 4
    requires GroupPos(f, p, c, g) + 4 <= |f.data| && bytes == f.data[GroupPos(f, p, c, g)..GroupPos(f, p, c, g) + 4]
    ensures var u := PutBytes(f, s, c, bytes, n);
      Levels(f, u, p, c, 8 * g + 2 * n) && Cached(f, u, p, c, 8 * g + 8, 9 - 2 * n, 8) && OthersKept(f, s, u, c)
  {
    hide State.Valid, HasFrame, LevelAt, PutNibble, Slot, Stream.Valid, GroupPos;
    if n > 0 {
      BytesPut(f, s, p, c, g, bytes, n - 1);
      var u := PutBytes(f, s, c, bytes, n - 1);
      TwoNibbles(f, u, p, c, g, n - 1);
      OthersStill(f, s, u, PutBytes(f, s, c, bytes, n), c);
    }
  }

  lemma TwoNibbles(f: Stream, s: State, p: nat, c: nat, g: nat, b: nat)
    requires f.Valid() && s.Valid(f) && b < 4 && Levels(f, s, p, c, 8 * g + 2 * b) && Cached(f, s, p, c, 8 * g + 8, 9 - 2 * b, 8)
    ensures GroupPos(f, p, c, g) + b < |f.data|
    ensures var x := f.data[GroupPos(f, p, c, g) + b];
      var u := PutNibble(f, PutNibble(f, s, c, 2 * b, x % 16), c, 2 * b + 1, x / 16);
      && Levels(f, u, p, c, 8 * g + 2 * b + 2) && Cached(f, u, p, c, 8 * g + 8, 7 - 2 * b, 8) && OthersKept(f, s, u, c)
  {
    hide State.Valid, Stream.Valid, HasFrame, Nibble, LevelAt, PutNibble, Slot, GroupPos, Levels, OthersKept;
    NibbleIs(f, p, c, g, b);
    NibblePut(f, s, p, c, g, 2 * b);
    var t := PutNibble(f, s, c, 2 * b, f.data[GroupPos(f, p, c, g) + b] % 16);
    NibblePut(f, t, p, c, g, 2 * b + 1);
    OthersStill(f, s, t, PutNibble(f, t, c, 2 * b + 1, f.data[GroupPos(f, p, c, g) + b] / 16), c);
  }

  lemma OthersStill(f: Stream, s: State, t: State, u: State, c: nat)
    requires f.Valid() && s.Valid(f) && t.Valid(f) && u.Valid(f) && OthersKept(f, s, t, c)
    ensures OthersKept(f, t, u, c) ==> OthersKept(f, s, u, c)
  {
    hide State.Valid, Slot;
    Sizes(f, s);
  }

  /** Group `g` of channel `c` is decoded, or is the next one. */
  ghost predicate Done(f: Stream, s: State, p: nat, c: nat, g: nat)
    requires f.Valid() && s.Valid(f)
  {
    Levels(f, s, p, c, 8 * g + 8) && Cached(f, s, p, c, 8 * g + 8, 1, 8)
  }

  ghost predicate Waits(f: Stream, s: State, p: nat, c: nat, g: nat)
    requires f.Valid() && s.Valid(f)
  {
    Levels(f, s, p, c, 8 * g)
  }

  lemma MovedValid(f: Stream, s: State, t: State)
    requires s.Valid(f) && (t.pos == s.pos || t.pos <= |f.data|)
    requires (t.blockBytes == s.blockBytes || t.blockBytes < TWO_TO_THE_32) && (t.count == s.count || t.count <= 8)
    requires t == s.(pos := t.pos, blockBytes := t.blockBytes, count := t.count)
    ensures t.Valid(f)
  {
  }

  lemma GroupRead(f: Stream, s: State, p: nat, c: nat, g: nat)
    requires f.Valid() && s.Valid(f) && Waits(f, s, p, c, g) && HasFrame(f, p, 8 * g + 8) && s.pos == GroupPos(f, p, c, g)
    ensures ReadGroup(f, s, c).Some?
    ensures var u := ReadGroup(f, s, c).value;
      && Done(f, u, p, c, g) && OthersKept(f, s, u, c) && u.pos == s.pos + 4 && u.blockBytes == Wrap32(s.blockBytes - 4)
  {
    hide State.Valid, HasHeader, LevelAt, PutBytes, Slot;
    NibbleIs(f, p, c, g, 0);
    var t := s.(pos := s.pos + 4, blockBytes := Wrap32(s.blockBytes - 4));
    MovedValid(f, s, t);
    BytesPut(f, t, p, c, g, f.data[s.pos..s.pos + 4], 4);
  }

  /** The first `n` channels of a group are loaded, and the others wait. */
  ghost predicate Loaded(f: Stream, s: State, u: State, p: nat, g: nat, n: nat)
    requires f.Valid() && s.Valid(f) && u.Valid(f)
  {
    && u.pos == s.pos + 4 * n && u.blockBytes == s.blockBytes - 4 * n
    && (forall c | 0 <= c < n :: Done(f, u, p, c, g))
    && forall c | n <= c < f.channels :: Waits(f, u, p, c, g)
  }

  lemma {:induction false} GroupsLoad(f: Stream, s: State, p: nat, g: nat, n: nat)
    requires f.Valid() && s.Valid(f) && n <= f.channels && HasFrame(f, p, 8 * g + 8)
    requires s.pos == p + Units(f, 1 + g) && s.blockBytes >= 4 * f.channels
    requires forall c | 0 <= c < f.channels :: Waits(f, s, p, c, g)
    ensures LoadGroups(f, s, n).Some? && Loaded(f, s, LoadGroups(f, s, n).value, p, g, n)
  {
    hide State.Valid, HasFrame, ReadGroup, Done, Waits;
    Sizes(f, s);
    if n > 0 {
      GroupsLoad(f, s, p, g, n - 1);
      var u := LoadGroups(f, s, n - 1).value;
      GroupRead(f, u, p, n - 1, g);
      GroupKeepsOthers(f, u, ReadGroup(f, u, n - 1).value, p, g, n - 1);
    }
  }

  lemma GroupKeepsOthers(f: Stream, s: State, u: State, p: nat, g: nat, n: nat)
    requires f.Valid() && s.Valid(f) && u.Valid(f) && n < f.channels && OthersKept(f, s, u, n)
    ensures forall c | 0 <= c < n && Done(f, s, p, c, g) :: Done(f, u, p, c, g)
    ensures forall c | n < c < f.channels && Waits(f, s, p, c, g) :: Waits(f, u, p, c, g)
  {
    Sizes(f, s);
    hide State.Valid, HasFrame, LevelAt, Slot;
  }

  lemma BlockRoom(f: Stream, g: nat)
    requires f.Valid()
    ensures Units(f, 2 + g) == Units(f, 1 + g) + 4 * f.channels
  {
  }

  /** The next group of a block. */
  lemma GroupLoads(f: Stream, s: State, p: nat, g: nat)
    requires f.Valid() && s.Valid(f) && InBlock(f, s, p, g) && s.count == 0
    requires HasFrame(f, p, 8 * g + 8) && Units(f, 2 + g) <= f.blockAlign
    ensures LoadMore(f, s).Some? && InBlock(f, LoadMore(f, s).value, p, g + 1)
  {
    hide State.Valid, HasFrame, LoadGroups, LevelAt, Slot;
    BlockRoom(f, g);
    var t := s.(count := 8);
    MovedValid(f, s, t);
    forall c | 0 <= c < f.channels
      ensures Waits(f, t, p, c, g)
    {
      assert ChannelIn(f, s, p, c, g);
    }
    GroupsLoad(f, t, p, g, f.channels);
    var u, h := LoadMore(f, s).value, g + 1;
    assert 8 * h == 8 * g + 8 && 1 + h == 2 + g;
    forall c | 0 <= c < f.channels
      ensures ChannelIn(f, u, p, c, h)
    {
      assert Done(f, u, p, c, g);
    }
  }

  /** The header of a block. */
  lemma HeaderPut(f: Stream, s: State, p: nat, c: nat, header: seq<Byte>)
    requires f.Valid() && s.Valid(f) && HasFrame(f, p, 0) && c < f.channels && header == f.data[p..p + 4 * f.channels]
    ensures header[4 * c + 2] < |STEP_TABLE|
    ensures var u := PutHeader(f, s, c, header);
      && Levels(f, u, p, c, 0) && Cached(f, u, p, c, 0, 1, 1) && OthersKept(f, s, u, c)
      && u == s.(predictor := u.predictor, stepIndex := u.stepIndex, cached := u.cached)
  {
    Sizes(f, s);
    hide State.Valid, Signed16;
    assert header[4 * c + 2] == f.data[p + 4 * c + 2];
    SlotsApart(f, s.cached, 1, c, Signed16(header[4 * c], header[4 * c + 1]));
  }

  lemma BlockLoads(f: Stream, s: State, p: nat)
    requires f.Valid() && s.Valid(f) && s.pos == p && s.count == 0 && s.blockBytes == 0
    requires HasFrame(f, p, 0) && Units(f, 1) <= f.blockAlign
    ensures LoadBlock(f, s).Some? && InBlock(f, LoadBlock(f, s).value, p, 0)
  {
    hide State.Valid, PutHeader, Levels, Cached;
    var size := 4 * f.channels;
    var header := f.data[p..p + size];
    var t := s.(pos := p + size, blockBytes := Wrap32(f.blockAlign - size), count := 1);
    HeaderGood(f, p);
    assert t.Valid(f) by { MovedValid(f, s, t); }
    HeaderPut(f, t, p, 0, header);
    if f.channels == 2 {
      var u := PutHeader(f, t, 0, header);
      HeaderPut(f, u, p, 1, header);
      FirstChannelKept(f, u, PutHeader(f, u, 1, header), p);
    }
  }

  lemma HeaderGood(f: Stream, p: nat)
    requires f.Valid() && HasFrame(f, p, 0)
    ensures var header := f.data[p..p + 4 * f.channels];
      header[2] < |STEP_TABLE| && (f.channels == 2 ==> header[6] < |STEP_TABLE|)
  {
    assert f.data[p + 4 * 0 + 2] < |STEP_TABLE|;
    if f.channels == 2 {
      assert f.data[p + 4 * 1 + 2] < |STEP_TABLE|;
    }
  }

  lemma FirstChannelKept(f: Stream, s: State, u: State, p: nat)
    requires f.Valid() && s.Valid(f) && u.Valid(f) && f.channels == 2 && OthersKept(f, s, u, 1)
    ensures Levels(f, s, p, 0, 0) ==> Levels(f, u, p, 0, 0)
    ensures Cached(f, s, p, 0, 0, 1, 1) ==> Cached(f, u, p, 0, 0, 1, 1)
  {
    hide State.Valid, HasFrame, LevelAt, Slot;
  }

  /** The oldest frame in the cache, and the state without it. */
  lemma OldestIs(f: Stream, s: State, p: nat, g: nat)
    requires f.Valid() && s.Valid(f) && InBlock(f, s, p, g) && s.count > 0
    ensures HasFrame(f, p, 8 * g + 1 - s.count)
    ensures forall c | 0 <= c < f.channels :: Oldest(f, s)[c] == SampleAt(f, p, c, 8 * g + 1 - s.count)
    ensures Drop(s).Valid(f) && InBlock(f, Drop(s), p, g)
  {
    hide State.Valid, HasHeader, LevelAt;
    FramesBefore(f, p, 8 * g + 1 - s.count, 8 * g);
    DropValid(f, s);
    forall c | 0 <= c < f.channels
      ensures Oldest(f, s)[c] == SampleAt(f, p, c, 8 * g + 1 - s.count)
      ensures ChannelIn(f, Drop(s), p, c, g)
    {
      assert ChannelIn(f, s, p, c, g);
      CachedFrame(f, s, c);
    }
  }

  lemma FramesBefore(f: Stream, p: nat, i: nat, j: nat)
    requires f.Valid() && i <= j && HasFrame(f, p, j)
    ensures HasFrame(f, p, i)
  {
  }

  lemma DropValid(f: Stream, s: State)
    requires s.Valid(f) && s.count > 0
    ensures Drop(s).Valid(f)
  {
  }

  lemma CachedFrame(f: Stream, s: State, c: nat)
    requires f.Valid() && s.Valid(f) && s.count > 0 && c < f.channels
    ensures Oldest(f, s)[c] == s.cached[Slot(f, s.count, c)]
  {
    hide State.Valid, Stream.Valid;
    Sizes(f, s);
    CountFits(f, s);
    ByChannels(s.count, f);
    var i := 16 - s.count * f.channels;
    assert Oldest(f, s) == s.cached[i..i + f.channels];
  }

  lemma ByChannels(n: nat, f: Stream)
    requires f.Valid()
    ensures n * f.channels == (if f.channels == 1 then n else 2 * n) && (n > 0 ==> f.channels <= n * f.channels)
  {
    assert f.channels == 1 || f.channels == 2;
  }

  lemma CountFits(f: Stream, s: State)
    requires s.Valid(f)
    ensures s.count <= 8
  {
  }

  /** Without the header no frame of the block can be had. */
  lemma HeaderMissing(f: Stream, s: State, p: nat)
    requires f.Valid() && s.Valid(f) && s.pos == p && s.count == 0 && s.blockBytes == 0 && !HasFrame(f, p, 0)
    ensures LoadBlock(f, s).None?
  {
    hide State.Valid, PutHeader;
    if p + 4 * f.channels <= |f.data| {
      var header := f.data[p..p + 4 * f.channels];
      assert header[2] == f.data[p + 2] && (f.channels == 2 ==> header[6] == f.data[p + 6]);
      if header[2] < |STEP_TABLE| && (f.channels == 2 ==> header[6] < |STEP_TABLE|) {
        forall c | 0 <= c < f.channels
          ensures f.data[p + 4 * c + 2] < |STEP_TABLE|
        {
          assert c == 0 || c == 1;
        }
        assert false;
      }
    }
  }

  /** Without the rest of a group its frames cannot be had. */
  lemma GroupMissing(f: Stream, s: State, p: nat, g: nat)
    requires f.Valid() && s.Valid(f) && InBlock(f, s, p, g) && s.count == 0 && !HasFrame(f, p, 8 * g + 8)
    ensures LoadMore(f, s).None?
  {
    hide State.Valid, HasHeader, PutBytes, LevelAt, Cached;
    assert ChannelIn(f, s, p, 0, g);
    var t := s.(count := 8);
    MovedValid(f, s, t);
    assert s.pos + 4 * f.channels > |f.data|;
    assert LoadGroups(f, t, 0) == Some(t);
    assert LoadGroups(f, t, 1) == ReadGroup(f, t, 0);
  }

  // The whole file.

  /** Blocks hold a header and whole groups. */
  predicate Grouped(f: Stream) {
    f.Valid() && f.blockAlign > 0 && f.blockAlign % Units(f, 1) == 0
  }

  function FramesInBlock(f: Stream): (r: nat)
    requires Grouped(f)
    ensures r > 0 && f.blockAlign == Units(f, (r + 7) / 8) && r % 8 == 1
  {
    1 + 8 * (f.blockAlign / Units(f, 1) - 1)
  }

  /** The block frame `n` of the file is in, and its place there. */
  function BlockOf(f: Stream, n: nat): (p: nat)
    requires Grouped(f)
    ensures p >= f.dataPos
  {
    Powers.DivModFacts(n, FramesInBlock(f));
    Powers.MulAtLeast(f.blockAlign, n / FramesInBlock(f), 0);
    f.dataPos + n / FramesInBlock(f) * f.blockAlign
  }

  function PlaceOf(f: Stream, n: nat): (j: nat)
    requires Grouped(f)
    ensures j < FramesInBlock(f)
  {
    n % FramesInBlock(f)
  }

  /** The bytes frame `n` depends on are there, and its block's header can be used. */
  predicate Present(f: Stream, n: nat)
    requires Grouped(f)
  {
    HasFrame(f, BlockOf(f, n), PlaceOf(f, n))
  }

  /** The sample of channel `c` in frame `n` of the file. */
  function Sample(f: Stream, n: nat, c: nat): int
    requires Grouped(f) && c < f.channels && Present(f, n)
  {
    SampleAt(f, BlockOf(f, n), c, PlaceOf(f, n))
  }

  lemma NextPlace(f: Stream, n: nat)
    requires Grouped(f)
    ensures var j := PlaceOf(f, n);
      if j + 1 < FramesInBlock(f) then BlockOf(f, n + 1) == BlockOf(f, n) && PlaceOf(f, n + 1) == j + 1
      else BlockOf(f, n + 1) == BlockOf(f, n) + f.blockAlign && PlaceOf(f, n + 1) == 0
  {
    hide FramesInBlock;
    var r, b := FramesInBlock(f), f.blockAlign;
    Powers.DivModFacts(n, r);
    var q, j := n / r, n % r;
    OneMoreTimes(q, r);
    OneMoreTimes(q, b);
    if j + 1 < r {
      Powers.DivModUnique(n + 1, r, q, j + 1);
    } else {
      Powers.DivModUnique(n + 1, r, q + 1, 0);
    }
  }

  lemma OneMoreTimes(q: int, r: int)
    ensures (q + 1) * r == q * r + r
  {
  }

  lemma FirstPlace(f: Stream)
    requires Grouped(f)
    ensures BlockOf(f, 0) == f.dataPos && PlaceOf(f, 0) == 0
  {
    Powers.DivModUnique(0, FramesInBlock(f), 0, 0);
  }

  /** The groups that must be loaded for frame `j` of a block. */
  function GroupsFor(j: nat): nat {
    (j + 7) / 8
  }

  /** The decoder has delivered frame `j` of the block at `p`, or, when `more` is one, is about to. */
  ghost predicate At(f: Stream, s: State, p: nat, j: nat, more: nat)
    requires f.Valid() && s.Valid(f)
  {
    InBlock(f, s, p, GroupsFor(j)) && s.count == 8 * GroupsFor(j) - j + more
  }

  /** The decoder after the first `n` frames. */
  ghost predicate Standing(f: Stream, s: State, n: nat)
    requires Grouped(f) && s.Valid(f)
  {
    s.cursor == n && if n == 0 then s == Start(f) else At(f, s, BlockOf(f, n - 1), PlaceOf(f, n - 1), 0)
  }

  /** The frame the decoder delivers next. */
  ghost predicate DeliversNext(f: Stream, s: State, p: nat, j: nat)
    requires f.Valid() && s.Valid(f)
  {
    && HasFrame(f, p, j) && NextFrame(f, s).Some?
    && (forall c | 0 <= c < f.channels :: NextFrame(f, s).value.0[c] == SampleAt(f, p, c, j))
    && At(f, NextFrame(f, s).value.1, p, j, 0)
  }

  lemma Delivers(f: Stream, s: State, t: State, p: nat, j: nat)
    requires f.Valid() && s.Valid(f) && t.Valid(f) && s.cursor < f.total && Ready(f, s) == Some(t) && At(f, t, p, j, 1)
    ensures DeliversNext(f, s, p, j)
  {
    hide State.Valid, HasFrame, InBlock, Ready, LevelAt;
    assert 8 * GroupsFor(j) + 1 - t.count == j;
    OldestIs(f, t, p, GroupsFor(j));
  }

  /** At the start of a block. */
  lemma BlockDelivers(f: Stream, s: State, p: nat)
    requires Grouped(f) && s.Valid(f) && s.pos == p && s.count == 0 && s.blockBytes == 0 && s.cursor < f.total
    ensures if HasFrame(f, p, 0) then DeliversNext(f, s, p, 0) else NextFrame(f, s).None?
  {
    hide State.Valid, HasFrame, InBlock, LoadBlock;
    if HasFrame(f, p, 0) {
      BlockLoads(f, s, p);
      Delivers(f, s, LoadBlock(f, s).value, p, 0);
    } else {
      HeaderMissing(f, s, p);
    }
  }

  /** Inside a block, with frames left in the cache. */
  lemma CacheDelivers(f: Stream, s: State, p: nat, j: nat)
    requires f.Valid() && s.Valid(f) && At(f, s, p, j, 0) && s.count > 0 && s.cursor < f.total
    ensures DeliversNext(f, s, p, j + 1)
  {
    hide State.Valid, HasFrame, InBlock, DeliversNext;
    assert GroupsFor(j + 1) == GroupsFor(j);
    Delivers(f, s, s, p, j + 1);
  }

  /** With none left, and the block not at its end. */
  lemma GroupDelivers(f: Stream, s: State, p: nat, j: nat)
    requires f.Valid() && s.Valid(f) && At(f, s, p, j, 0) && s.count == 0 && s.blockBytes != 0 && s.cursor < f.total
    requires Units(f, 2 + GroupsFor(j)) <= f.blockAlign
    ensures if HasFrame(f, p, j + 1) then DeliversNext(f, s, p, j + 1) else NextFrame(f, s).None?
  {
    hide State.Valid, HasFrame, LoadMore, InBlock, DeliversNext;
    var g := GroupsFor(j);
    assert j == 8 * g && GroupsFor(j + 1) == g + 1;
    GroupEnds(f, p, g);
    if HasFrame(f, p, 8 * g + 8) {
      GroupLoads(f, s, p, g);
      Delivers(f, s, LoadMore(f, s).value, p, j + 1);
    } else {
      GroupMissing(f, s, p, g);
    }
  }

  lemma RestDelivers(f: Stream, s: State, p: nat, j: nat)
    requires Grouped(f) && s.Valid(f) && At(f, s, p, j, 0) && j + 1 < FramesInBlock(f) && s.cursor < f.total
    ensures if HasFrame(f, p, j + 1) then DeliversNext(f, s, p, j + 1) else NextFrame(f, s).None?
  {
    hide State.Valid, HasHeader, DeliversNext, NextFrame;
    if s.count > 0 {
      FramesBefore(f, p, j + 1, 8 * GroupsFor(j));
      CacheDelivers(f, s, p, j);
    } else {
      GroupDelivers(f, s, p, j);
    }
  }

  /** A group is there as a whole or not at all. */
  lemma GroupEnds(f: Stream, p: nat, g: nat)
    requires f.Valid()
    ensures HasFrame(f, p, 8 * g + 1) <==> HasFrame(f, p, 8 * g + 8)
  {
  }

  /** After a block's last frame the decoder is at the end of the block. */
  lemma BlockEnds(f: Stream, s: State, p: nat, j: nat)
    requires Grouped(f) && s.Valid(f) && At(f, s, p, j, 0) && j + 1 == FramesInBlock(f)
    ensures s.count == 0 && s.blockBytes == 0 && s.pos == p + f.blockAlign
  {
    hide State.Valid, HasFrame;
  }

  /** The decoder delivers frame `n` exactly when its bytes are there, and with the samples they say. */
  lemma NextDecodes(f: Stream, s: State, n: nat)
    requires Grouped(f) && s.Valid(f) && Standing(f, s, n) && n < f.total
    ensures NextFrame(f, s).Some? <==> Present(f, n)
    ensures Present(f, n) ==>
      var (frame, u) := NextFrame(f, s).value;
      Standing(f, u, n + 1) && forall c | 0 <= c < f.channels :: frame[c] == Sample(f, n, c)
  {
    hide State.Valid, HasFrame, NextFrame, At, BlockOf, PlaceOf, FramesInBlock;
    if n == 0 {
      FirstPlace(f);
      BlockDelivers(f, s, f.dataPos);
    } else {
      var p, j := BlockOf(f, n - 1), PlaceOf(f, n - 1);
      NextPlace(f, n - 1);
      if j + 1 < FramesInBlock(f) {
        RestDelivers(f, s, p, j);
      } else {
        BlockEnds(f, s, p, j);
        BlockDelivers(f, s, p + f.blockAlign);
      }
    }
  }

  /** The first `n` frames can be decoded exactly when all their bytes are there. */
  lemma {:induction false} AllStand(f: Stream, n: nat)
    requires Grouped(f) && n <= f.total
    ensures After(f, Start(f), n).Some? <==> forall i | 0 <= i < n :: Present(f, i)
    ensures After(f, Start(f), n).Some? ==> Standing(f, After(f, Start(f), n).value, n)
  {
    hide State.Valid, NextFrame, Present, Standing;
    if n == 0 {
      assert Standing(f, Start(f), 0) by { StartStands(f); }
    } else {
      AllStand(f, n - 1);
      if After(f, Start(f), n - 1).Some? {
        NextDecodes(f, After(f, Start(f), n - 1).value, n - 1);
      }
    }
  }

  lemma StartStands(f: Stream)
    requires Grouped(f)
    ensures Standing(f, Start(f), 0)
  {
  }

  /** Frame `i` of a straight decode has in each channel the sample its block's bytes say. */
  lemma {:induction false} SamplesDecoded(f: Stream, n: nat, i: nat, c: nat)
    requires Grouped(f) && n <= f.total && i < n && c < f.channels && After(f, Start(f), n).Some?
    ensures Present(f, i) && 0 <= i * f.channels && i * f.channels + c < |Samples(f, Start(f), n)|
    ensures Samples(f, Start(f), n)[i * f.channels + c] == Sample(f, i, c)
  {
    hide State.Valid, NextFrame, Present, Sample, Standing;
    AfterPrefix(f, Start(f), n - 1, n);
    AllStand(f, n - 1);
    AllStand(f, n);
    NextDecodes(f, After(f, Start(f), n - 1).value, n - 1);
    SampleCount(n, f.channels);
    if i < n - 1 {
      SamplesDecoded(f, n - 1, i, c);
    }
  }
}
