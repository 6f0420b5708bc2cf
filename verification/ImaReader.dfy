/** Reading and seeking in IMA ADPCM files (core-interface/wav/dr_wav.h: `drwav_read_pcm_frames_s16__ima`,
    `drwav_seek_to_pcm_frame` on a memory stream), against the frame-by-frame decoder. */
module ImaReader {
  import opened Bytes
  import opened ImaDecoder

  class Wav {
    const f: Stream
    const stream: MemoryStream
    var cursor: nat
    var blockBytes: nat
    var count: nat
    const predictor: array<int>
    const stepIndex: array<int>
    const cached: array<int>

    ghost predicate Shape()
      reads this
    {
      && f.Valid() && stream.data == f.data && predictor.Length == 2 && stepIndex.Length == 2 && cached.Length == 16
      && predictor != stepIndex && predictor != cached && stepIndex != cached
    }

    ghost function View(): State
      reads this, stream, predictor, stepIndex, cached
    {
      State(stream.pos, cursor, blockBytes, predictor[..], stepIndex[..], cached[..], count)
    }

    ghost predicate Valid()
      reads this, stream, predictor, stepIndex, cached
    {
      Shape() && View().Valid(f)
    }

    /** A file just opened. */
    constructor (f: Stream)
      requires f.Valid()
      ensures Valid() && this.f == f && View() == Start(f)
    {
      this.f := f;
      cursor, blockBytes, count := 0, 0, 0;
      var s := new MemoryStream(f.data, f.dataPos);
      stream := s;
      predictor := new int[2](_ => 0);
      stepIndex := new int[2](_ => 0);
      cached := new int[16](_ => 0);
      new;
      assert predictor[..] == [0, 0] && stepIndex[..] == [0, 0] && cached[..] == seq(16, _ => 0);
    }

    /** One nibble of channel `c`. */
    method DecodeNibble(c: nat, k: nat, nibble: nat)
      requires Valid() && c < f.channels && k < 8 && nibble < 16 && count == 8
      modifies predictor, stepIndex, cached
      ensures Valid() && View() == PutNibble(f, old(View()), c, k, nibble)
    {
      ghost var s := View();
      var step := STEP_TABLE[stepIndex[c]];
      var p := predictor[c];
      var diff := step / 8;
      if nibble % 2 == 1 {
        diff := diff + step / 4;
      }
      if nibble / 2 % 2 == 1 {
        diff := diff + step / 2;
      }
      if nibble / 4 % 2 == 1 {
        diff := diff + step;
      }
      if nibble / 8 % 2 == 1 {
        diff := -diff;
      }
      assert diff == Difference(step, nibble);
      p := Clamp(p + diff, -32768, 32767);
      predictor[c] := p;
      stepIndex[c] := Clamp(stepIndex[c] + INDEX_TABLE[nibble], 0, |STEP_TABLE| - 1);
      cached[(16 - count * f.channels) + k * f.channels + c] := p;
      assert predictor[..] == s.predictor[c := p];
      assert stepIndex[..] == s.stepIndex[c := stepIndex[c]];
      assert cached[..] == s.cached[16 - 8 * f.channels + k * f.channels + c := p];
    }

    /** The four bytes of a group of channel `c`. */
    method DecodeGroup(c: nat, nibbles: seq<Byte>)
      requires Valid() && c < f.channels && |nibbles| == 4 && count == 8
      modifies predictor, stepIndex, cached
      ensures Valid() && View() == PutBytes(f, old(View()), c, nibbles, 4)
    {
      hide State.Valid, PutNibble;
      ghost var s := View();
      var iByte := 0;
      while iByte < 4
        invariant 0 <= iByte <= 4 && Valid() && View() == PutBytes(f, s, c, nibbles, iByte)
      {
        var nibble0, nibble1 := nibbles[iByte] % 16, nibbles[iByte] / 16;
        DecodeNibble(c, 2 * iByte, nibble0);
        DecodeNibble(c, 2 * iByte + 1, nibble1);
        iByte := iByte + 1;
      }
    }

    /** The next group of channel `c`, from the stream. */
    method LoadGroup(c: nat) returns (ok: bool)
      requires Valid() && c < f.channels && count == 8
      modifies stream`pos, `blockBytes, predictor, stepIndex, cached
      ensures Valid() && cursor == old(cursor)
      ensures if ok then ReadGroup(f, old(View()), c) == Some(View())
        else ReadGroup(f, old(View()), c).None? && View() == old(View()).(pos := |f.data|)
    {
      hide PutBytes;
      var nibbles := stream.OnRead(4);
      if |nibbles| != 4 {
        return false;
      }
      blockBytes := Wrap32(blockBytes - 4);
      DecodeGroup(c, nibbles);
      ok := true;
    }

    /** Eight frames into the empty cache. */
    method LoadMoreFrames() returns (ok: bool)
      requires Valid() && count == 0
      modifies stream`pos, `blockBytes, `count, predictor, stepIndex, cached
      ensures Valid() && cursor == old(cursor)
      ensures ok ==> LoadMore(f, old(View())) == Some(View())
      ensures !ok ==> LoadMore(f, old(View())).None? && View() == StuckMore(f, old(View()))
    {
      BeginCache();
      ghost var s := View();
      assert LoadGroups(f, s, 0) == Some(s);
      hide ReadGroup, LoadGroups, State.Valid, Stream.Valid;
      var iChannel := 0;
      while iChannel < f.channels
        invariant 0 <= iChannel <= f.channels && Valid() && count == 8 && LoadGroups(f, s, iChannel) == Some(View())
      {
        NextGroup(f, s, View(), iChannel);
        ok := LoadGroup(iChannel);
        if !ok {
          ClearCount();
          return false;
        }
        iChannel := iChannel + 1;
      }
      ok := true;
    }

    method BeginCache()
      requires Valid() && count == 0
      modifies `count
      ensures Valid() && View() == old(View()).(count := 8)
    {
      count := 8;
    }

    method ClearCount()
      requires Valid()
      modifies `count
      ensures Valid() && View() == old(View()).(count := 0)
    {
      count := 0;
    }

    /** The header of the next block. */
    method LoadNewBlock() returns (ok: bool)
      requires Valid() && count == 0 && blockBytes == 0
      modifies stream`pos, `blockBytes, `count, predictor, stepIndex, cached
      ensures Valid() && cursor == old(cursor)
      ensures ok ==> LoadBlock(f, old(View())) == Some(View())
      ensures !ok ==> LoadBlock(f, old(View())).None? && View() == StuckBlock(f, old(View()))
    {
      hide PutHeader, Signed16, ToInt32, IsSample;
      var size := 4 * f.channels;
      var header := stream.OnRead(size);
      if |header| != size {
        return false;
      }
      blockBytes := Wrap32(f.blockAlign - size);
      if header[2] >= |STEP_TABLE| || (f.channels == 2 && header[6] >= |STEP_TABLE|) {
        LeaveBlock();
        return false;
      }
      count := 1;
      ReadHeaders(header);
      ok := true;
    }

    /** The rest of a block left out, as far as the stream can be moved. */
    method LeaveBlock()
      requires Valid()
      modifies stream`pos, `blockBytes
      ensures Valid()
      ensures var target := old(stream.pos) + ToInt32(old(blockBytes));
        View() == old(View()).(pos := if 0 <= target <= |f.data| then target else old(stream.pos), blockBytes := 0)
    {
      var _ := stream.OnSeek(ToInt32(blockBytes), false);
      blockBytes := 0;
    }

    method ReadHeaders(header: seq<Byte>)
      requires Valid() && |header| == 4 * f.channels && header[2] < |STEP_TABLE|
      requires f.channels == 2 ==> header[6] < |STEP_TABLE|
      modifies predictor, stepIndex, cached
      ensures Valid()
      ensures var u := PutHeader(f, old(View()), 0, header);
        View() == if f.channels == 1 then u else PutHeader(f, u, 1, header)
    {
      hide State.Valid;
      HeaderRead(0, header);
      if f.channels == 2 {
        HeaderRead(1, header);
      }
    }

    method HeaderRead(c: nat, header: seq<Byte>)
      requires Valid() && c < f.channels && |header| == 4 * f.channels && header[4 * c + 2] < |STEP_TABLE|
      modifies predictor, stepIndex, cached
      ensures Valid() && View() == PutHeader(f, old(View()), c, header)
    {
      ghost var s := View();
      predictor[c] := Signed16(header[4 * c], header[4 * c + 1]);
      stepIndex[c] := Clamp(header[4 * c + 2], 0, |STEP_TABLE| - 1);
      cached[16 - f.channels + c] := predictor[c];
      assert predictor[..] == s.predictor[c := predictor[c]];
      assert stepIndex[..] == s.stepIndex[c := stepIndex[c]];
      assert cached[..] == s.cached[16 - f.channels + c := predictor[c]];
    }

    /** The oldest cached frame copied to the buffer, if there is one. */
    method CopyFrame(buffer: array?<int>, at: nat)
      requires Valid() && count > 0 && buffer != predictor && buffer != stepIndex && buffer != cached
      requires buffer != null ==> at + f.channels <= buffer.Length
      modifies buffer
      ensures Valid() && View() == old(View())
      ensures buffer != null ==> buffer[..] == old(buffer[..at]) + Oldest(f, View()) + old(buffer[at + f.channels..])
    {
      if buffer != null {
        CopySamples(cached, 16 - count * f.channels, buffer, at, f.channels);
      }
    }

    static method CopySamples(from: array<int>, i: nat, to: array<int>, at: nat, n: nat)
      requires from != to && i + n <= from.Length && at + n <= to.Length
      modifies to
      ensures to[..] == old(to[..at]) + from[i..i + n] + old(to[at + n..])
    {
      ghost var b := to[..];
      var k := 0;
      while k < n
        invariant 0 <= k <= n
        invariant forall j | 0 <= j < to.Length :: to[j] == if at <= j < at + k then from[i + j - at] else b[j]
      {
        to[at + k] := from[i + k];
        k := k + 1;
      }
    }

    /** `n` frames decoded from `s0`, and possibly the next one already in the cache. */
    ghost predicate Progress(s0: State, n: nat)
      requires f.Valid() && s0.Valid(f)
      reads this, stream, predictor, stepIndex, cached
    {
      && Valid() && After(f, s0, n).Some?
      && (View() == After(f, s0, n).value || (count > 0 && Ready(f, After(f, s0, n).value) == Some(View())))
    }

    /** `n` frames decoded from `s0` and no more to be had. */
    ghost predicate IsLeft(s0: State, n: nat)
      requires f.Valid() && s0.Valid(f)
      reads this, stream, predictor, stepIndex, cached
    {
      && After(f, s0, n).Some? && NextFrame(f, After(f, s0, n).value).None?
      && View() == Left(f, After(f, s0, n).value, n > 0)
    }

    /** The next frame delivered from the cache. */
    method DeliverFrame(buffer: array?<int>, at: nat, ghost s0: State, ghost n: nat)
      requires f.Valid() && s0.Valid(f) && Progress(s0, n) && count > 0 && cursor < f.total
      requires buffer != predictor && buffer != stepIndex && buffer != cached
      requires buffer != null ==> at + f.channels <= buffer.Length
      modifies `cursor, `count, buffer
      ensures Progress(s0, n + 1) && View() == After(f, s0, n + 1).value && cursor == old(cursor) + 1 && count == old(count) - 1
      ensures Samples(f, s0, n + 1) == Samples(f, s0, n) + old(Oldest(f, View()))
      ensures buffer != null ==> buffer[..] == old(buffer[..at]) + old(Oldest(f, View())) + old(buffer[at + f.channels..])
    {
      hide LoadBlock, LoadMore, Oldest, State.Valid;
      ghost var t := After(f, s0, n).value;
      assert Ready(f, t) == Some(View());
      assert NextFrame(f, t) == Some((Oldest(f, View()), Drop(View())));
      NextSamples(f, s0, n);
      CopyFrame(buffer, at);
      cursor := cursor + 1;
      count := count - 1;
    }

    /** The loop that outputs what is cached. */
    method Deliver(buffer: array?<int>, ghost b: seq<int>, ghost s0: State, n0: nat, framesToRead0: nat)
      returns (n: nat, framesToRead: nat)
      requires f.Valid() && s0.Valid(f) && Progress(s0, n0) && framesToRead0 > 0
      requires buffer != predictor && buffer != stepIndex && buffer != cached
      requires buffer != null ==> (n0 + framesToRead0) * f.channels <= buffer.Length && Delivered(buffer[..], b, f, s0, n0)
      modifies `cursor, `count, buffer
      ensures Progress(s0, n) && n + framesToRead == n0 + framesToRead0
      ensures buffer != null ==> Delivered(buffer[..], b, f, s0, n)
      ensures framesToRead == 0 || count == 0 || cursor >= f.total
      ensures framesToRead == 0 ==> View() == After(f, s0, n).value
      ensures if n == n0 then count == old(count) && cursor == old(cursor) else View() == After(f, s0, n).value
      ensures n0 <= n && (old(count > 0 && cursor < f.total) ==> n > n0)
    {
      n, framesToRead := n0, framesToRead0;
      hide Delivered, State.Valid, Stream.Valid, Ready, NextFrame, After, Samples, Oldest;
      while framesToRead > 0 && count > 0 && cursor < f.total
        invariant Progress(s0, n) && n0 <= n && n + framesToRead == n0 + framesToRead0
        invariant buffer != null ==> Delivered(buffer[..], b, f, s0, n)
        invariant if n == n0 then count == old(count) && cursor == old(cursor) else View() == After(f, s0, n).value
      {
        ghost var before := if buffer != null then buffer[..] else [];
        Room(n, framesToRead, f.channels);
        ghost var frame := Oldest(f, View());
        DeliverFrame(buffer, n * f.channels, s0, n);
        if buffer != null {
          DeliveredMore(before, buffer[..], b, f, s0, n, frame);
        }
        framesToRead := framesToRead - 1;
        n := n + 1;
      }
    }

    /** `drwav_read_pcm_frames_s16__ima`: as many of the frames asked for as the decoder delivers, and no
        fewer. */
    method Read(frames: nat, buffer: array?<int>) returns (n: nat)
      requires Valid() && frames > 0
      requires buffer != predictor && buffer != stepIndex && buffer != cached
      requires buffer != null ==> buffer.Length >= frames * f.channels
      modifies stream`pos, `cursor, `blockBytes, `count, predictor, stepIndex, cached, buffer
      ensures Valid() && IsRead(f, old(View()), frames, n, View())
      ensures buffer != null ==> Delivered(buffer[..], old(buffer[..]), f, old(View()), n)
    {
      ghost var s0 := View();
      ghost var b := if buffer != null then buffer[..] else [];
      hide Delivered, State.Valid, Stream.Valid, Ready, NextFrame, After, Samples;
      Begun(f, s0, b);
      var framesToRead := frames;
      n := 0;
      while cursor < f.total
        invariant Progress(s0, n) && n + framesToRead == frames && framesToRead > 0
        invariant buffer != null ==> Delivered(buffer[..], b, f, s0, n)
        invariant cursor >= f.total ==> IsLeft(s0, n)
        decreases framesToRead, if count == 0 then 1 else 0
      {
        var ok;
        ok, n, framesToRead := ReadRound(buffer, b, s0, n, framesToRead);
        if !ok {
          return;
        }
        if framesToRead == 0 {
          break;
        }
      }
    }

    /** One round of the source's outer loop: a block header if one is due, the frames cached, and more of the
        block if the cache ran out. The source leaves with what it has when it cannot load (`ok` is false then),
        and when no frame is left to read. */
    method ReadRound(buffer: array?<int>, ghost b: seq<int>, ghost s0: State, n0: nat, framesToRead0: nat)
      returns (ok: bool, n: nat, framesToRead: nat)
      requires f.Valid() && s0.Valid(f) && Progress(s0, n0) && framesToRead0 > 0 && cursor < f.total
      requires buffer != predictor && buffer != stepIndex && buffer != cached
      requires buffer != null ==> (n0 + framesToRead0) * f.channels <= buffer.Length && Delivered(buffer[..], b, f, s0, n0)
      modifies stream`pos, `cursor, `blockBytes, `count, predictor, stepIndex, cached, buffer
      ensures Valid() && n0 <= n && n + framesToRead == n0 + framesToRead0
      ensures After(f, s0, n).Some? && cursor == s0.cursor + n
      ensures buffer != null ==> Delivered(buffer[..], b, f, s0, n)
      ensures if ok then Progress(s0, n) else framesToRead > 0 && IsLeft(s0, n)
      ensures ok && framesToRead > 0 && cursor >= f.total ==> IsLeft(s0, n)
      ensures ok && framesToRead == 0 ==> View() == After(f, s0, n).value
      ensures ok && framesToRead == framesToRead0 ==> old(count) == 0 && count > 0
    {
      hide Delivered, State.Valid, Stream.Valid, Ready, NextFrame, After, Samples;
      ok, n, framesToRead := true, n0, framesToRead0;
      if count == 0 && blockBytes == 0 {
        ok := BeginBlock(s0, n);
        if !ok {
          return;
        }
      }
      n, framesToRead := Deliver(buffer, b, s0, n, framesToRead);
      if framesToRead > 0 && count == 0 && blockBytes != 0 {
        ok := Refill(s0, n);
      } else if cursor >= f.total {
        EndReached(f, View());
      }
    }

    /** `drwav_seek_to_first_pcm_frame`. */
    method SeekToFirstFrame() returns (ok: bool)
      requires Valid()
      modifies stream`pos, `cursor, `blockBytes, `count, predictor, stepIndex, cached
      ensures ok && Valid() && View() == Start(f) && cursor == Start(f).cursor == 0
    {
      ok := stream.OnSeek(f.dataPos, true);
      if !ok {
        return;
      }
      blockBytes, count := 0, 0;
      predictor[0], predictor[1], stepIndex[0], stepIndex[1] := 0, 0, 0, 0;
      forall i | 0 <= i < 16 {
        cached[i] := 0;
      }
      cursor := 0;
      assert predictor[..] == [0, 0] && stepIndex[..] == [0, 0] && cached[..] == seq(16, _ => 0);
    }

    /** `drwav_seek_to_pcm_frame` in a compressed file: decodes forward to the frame, from the start if it lies
        behind. */
    method Seek(target: nat) returns (ok: bool)
      requires Valid()
      modifies stream`pos, `cursor, `blockBytes, `count, predictor, stepIndex, cached
      ensures Valid() && IsSeek(f, old(View()), target, ok, View())
    {
      hide After, NextFrame, State.Valid, Stream.Valid, Start;
      if f.total == 0 {
        return true;
      }
      var t := target;
      if t > f.total {
        t := f.total;
      }
      if t < cursor {
        var first := SeekToFirstFrame();
        if !first {
          return false;
        }
      }
      ok := SkipFrames(t);
    }

    /** Decoding into a scratch buffer up to frame `t`. */
    method SkipFrames(t: nat) returns (ok: bool)
      requires Valid() && cursor <= t && (cursor < t ==> t <= f.total)
      modifies stream`pos, `cursor, `blockBytes, `count, predictor, stepIndex, cached
      ensures Valid()
      ensures if ok then After(f, old(View()), t - old(cursor)) == Some(View())
        else After(f, old(View()), t - old(cursor)).None? && Stops(f, old(View()), t - old(cursor), View())
    {
      ghost var s0, goal := View(), t - cursor;
      var offsetInFrames := t - cursor;
      hide State.Valid, NextFrame;
      var devnull := new int[2048];
      ghost var n := 0;
      while offsetInFrames > 0
        invariant Valid() && 0 <= n && 0 <= offsetInFrames && n + offsetInFrames == goal && After(f, s0, n) == Some(View())
      {
        var framesToRead := offsetInFrames;
        if framesToRead > devnull.Length / f.channels {
          framesToRead := devnull.Length / f.channels;
        }
        ghost var s := View();
        var framesRead := Read(framesToRead, devnull);
        SkipStep(f, s0, n, framesToRead, framesRead, goal, View());
        if framesRead != framesToRead {
          return false;
        }
        offsetInFrames := offsetInFrames - framesRead;
        n := n + framesRead;
      }
      ok := true;
    }

    method BeginBlock(ghost s0: State, ghost n: nat) returns (ok: bool)
      requires f.Valid() && s0.Valid(f) && Progress(s0, n) && count == 0 && blockBytes == 0 && cursor < f.total
      modifies stream`pos, `blockBytes, `count, predictor, stepIndex, cached
      ensures Valid() && cursor == old(cursor)
      ensures if ok then Progress(s0, n) && count > 0 else IsLeft(s0, n)
    {
      hide LoadBlock, State.Valid;
      ok := LoadNewBlock();
    }

    method Refill(ghost s0: State, ghost n: nat) returns (ok: bool)
      requires f.Valid() && s0.Valid(f) && Progress(s0, n) && count == 0 && blockBytes != 0 && (cursor < f.total || n > 0)
      modifies stream`pos, `blockBytes, `count, predictor, stepIndex, cached
      ensures Valid() && cursor == old(cursor)
      ensures if ok then Progress(s0, n) && count > 0 else IsLeft(s0, n)
      ensures cursor >= f.total ==> IsLeft(s0, n)
    {
      hide LoadMore, State.Valid;
      ok := LoadMoreFrames();
    }
  }

  lemma Begun(f: Stream, s: State, b: seq<int>)
    requires f.Valid() && s.Valid(f)
    ensures After(f, s, 0) == Some(s) && Delivered(b, b, f, s, 0)
  {
  }

  lemma SkipStep(f: Stream, s0: State, n: nat, asked: nat, got: nat, goal: nat, s': State)
    requires f.Valid() && s0.Valid(f) && After(f, s0, n).Some? && n + asked <= goal
    requires IsRead(f, After(f, s0, n).value, asked, got, s') && s0.cursor + goal <= f.total
    ensures if got == asked then After(f, s0, n + got) == Some(s') else After(f, s0, goal).None? && Stops(f, s0, goal, s')
  {
    hide State.Valid, NextFrame;
    AfterAdd(f, s0, n, got);
    if got != asked {
      var last := After(f, After(f, s0, n).value, got).value;
      LeftStuck(f, last, got > 0);
      assert StopsAt(f, s0, goal, n + got, s');
      NoFirst(f, last, goal - (n + got));
      AfterAdd(f, s0, n + got, goal - (n + got));
    }
  }

  lemma LeftStuck(f: Stream, s: State, delivered: bool)
    requires f.Valid() && s.Valid(f) && NextFrame(f, s).None? && s.cursor < f.total
    ensures Ready(f, s).None? && Left(f, s, delivered) == Stuck(f, s) && Stuck(f, s).count == 0
  {
  }

  /** From `s` the decoder gets no further than `k` of the `n` frames, and leaves `s'`. */
  ghost predicate StopsAt(f: Stream, s: State, n: nat, k: nat, s': State)
    requires f.Valid() && s.Valid(f)
  {
    k < n && After(f, s, k).Some? && Ready(f, After(f, s, k).value).None? && s' == Stuck(f, After(f, s, k).value)
  }

  ghost predicate Stops(f: Stream, s: State, n: nat, s': State)
    requires f.Valid() && s.Valid(f)
  {
    exists k :: StopsAt(f, s, n, k, s')
  }

  /** What a seek did: it goes on from the state it found, or from the start of the data, frame by frame to its
      target, and fails exactly when the decoder cannot get there, where it stops. */
  ghost predicate IsSeek(f: Stream, s: State, target: nat, ok: bool, s': State)
    requires f.Valid() && s.Valid(f)
  {
    if f.total == 0 then ok && s' == s
    else
      var t := if target > f.total then f.total else target;
      var from := if t < s.cursor then Start(f) else s;
      var r := After(f, from, t - from.cursor);
      if ok then r == Some(s') else r.None? && Stops(f, from, t - from.cursor, s')
  }

  lemma EndReached(f: Stream, s: State)
    requires f.Valid() && s.Valid(f) && s.cursor >= f.total
    ensures NextFrame(f, s).None? && (s.count > 0 || s.blockBytes == 0 ==> Left(f, s, true) == s)
  {
  }

  /** What a read of `frames` frames did: it delivered `n`, all it could, and left the state after them. */
  ghost predicate IsRead(f: Stream, s: State, frames: nat, n: nat, s': State)
    requires f.Valid() && s.Valid(f)
  {
    n <= frames && After(f, s, n).Some?
    && var t := After(f, s, n).value;
      if n == frames then s' == t else NextFrame(f, t).None? && s' == Left(f, t, n > 0)
  }

  /** The buffer holds the samples of `n` frames and is otherwise as it was. */
  ghost predicate Delivered(buffer: seq<int>, before: seq<int>, f: Stream, s: State, n: nat)
    requires f.Valid() && s.Valid(f) && After(f, s, n).Some?
  {
    n * f.channels <= |before| && buffer == Samples(f, s, n) + before[n * f.channels..]
  }

  lemma Room(n: nat, rest: nat, channels: nat)
    requires rest > 0
    ensures n * channels + channels <= (n + rest) * channels
  {
    assert (n + rest) * channels == n * channels + channels + (rest - 1) * channels;
    assert (rest - 1) * channels >= 0;
  }

  lemma DeliveredMore(buffer: seq<int>, buffer': seq<int>, b: seq<int>, f: Stream, s: State, n: nat, frame: seq<int>)
    requires f.Valid() && s.Valid(f) && After(f, s, n).Some? && After(f, s, n + 1).Some?
    requires Delivered(buffer, b, f, s, n) && Samples(f, s, n + 1) == Samples(f, s, n) + frame && |frame| == f.channels
    requires var at := n * f.channels;
      at + f.channels <= |buffer| && buffer' == buffer[..at] + frame + buffer[at + f.channels..]
    ensures Delivered(buffer', b, f, s, n + 1)
  {
    SampleCount(n + 1, f.channels);
    var at := n * f.channels;
    assert |Samples(f, s, n)| == at;
    assert buffer[..at] == Samples(f, s, n);
    assert buffer[at + f.channels..] == b[at + f.channels..];
  }

  lemma NextSamples(f: Stream, s: State, n: nat)
    requires f.Valid() && s.Valid(f) && After(f, s, n).Some? && NextFrame(f, After(f, s, n).value).Some?
    ensures After(f, s, n + 1) == Some(NextFrame(f, After(f, s, n).value).value.1)
    ensures Samples(f, s, n + 1) == Samples(f, s, n) + NextFrame(f, After(f, s, n).value).value.0
  {
  }

  /** A group that cannot be read ends the loading; one that can is the next in turn. */
  lemma NextGroup(f: Stream, s: State, t: State, c: nat)
    requires f.Valid() && s.Valid(f) && t.Valid(f) && c < f.channels && LoadGroups(f, s, c) == Some(t)
    ensures LoadGroups(f, s, c + 1) == ReadGroup(f, t, c)
    ensures ReadGroup(f, t, c).None? ==>
      LoadGroups(f, s, f.channels).None? && StuckGroups(f, s, f.channels) == t.(pos := |f.data|)
  {
    hide ReadGroup, State.Valid;
    if ReadGroup(f, t, c).None? && c + 1 < f.channels {
      assert LoadGroups(f, s, c + 2).None?;
    }
  }

  // Runs of reads and seeks.

  /** The last frame was delivered and its block goes on: a read that wants more loads ahead here. */
  predicate LoadsAhead(f: Stream, s: State) {
    s.cursor >= f.total && s.count == 0 && s.blockBytes != 0
  }

  /** What a read leaves that goes on past `s1`, where a further read from there leaves `s2`. */
  function ReadOn(f: Stream, s1: State, further: bool, s2: State): State
    requires f.Valid() && s1.Valid(f)
  {
    if further && LoadsAhead(f, s1) then Left(f, s1, true) else s2
  }

  /** Reading `n` frames and then `m` is reading `n + m`: the same samples and the same number of them, whenever the
      first read delivers all its frames. The state is the same too, but for what the longer read has loaded ahead when
      the first one ended with the file's last frame. */
  lemma ReadsCompose(f: Stream, s: State, n: nat, s1: State, m: nat, got: nat, s2: State)
    requires f.Valid() && s.Valid(f) && s1.Valid(f) && IsRead(f, s, n, n, s1) && IsRead(f, s1, m, got, s2)
    ensures IsRead(f, s, n + m, n + got, ReadOn(f, s1, n > 0 && m > 0, s2))
    ensures Samples(f, s, n + got) == Samples(f, s, n) + Samples(f, s1, got)
  {
    hide NextFrame, State.Valid, Stream.Valid, Samples, Left, After;
    assert After(f, s, n) == Some(s1);
    AfterAdd(f, s, n, got);
    SamplesAdd(f, s, n, got);
    FurtherLeft(f, s1, n > 0, m, got, s2);
  }

  /** What a further read leaves, told by the whole read. */
  lemma FurtherLeft(f: Stream, s1: State, delivered: bool, m: nat, got: nat, s2: State)
    requires f.Valid() && s1.Valid(f) && IsRead(f, s1, m, got, s2)
    ensures After(f, s1, got).Some?
    ensures var t, r := After(f, s1, got).value, ReadOn(f, s1, delivered && m > 0, s2);
      if got == m then r == t else NextFrame(f, t).None? && r == Left(f, t, delivered || got > 0)
  {
    hide State.Valid, Stream.Valid, After, LoadMore, LoadBlock;
    if got > 0 {
      CursorBound(f, s1, got);
    } else {
      Begun(f, s1, []);
    }
  }

  datatype Op = ReadOp(frames: nat) | SeekOp(target: nat)

  /** A read that delivers all its frames or reaches the end of the file, or a seek that succeeds. */
  ghost predicate Succeeds(f: Stream, s: State, op: Op, s': State)
    requires f.Valid() && s.Valid(f)
  {
    && s'.Valid(f)
    && match op
       case ReadOp(frames) => frames > 0 && exists n :: IsRead(f, s, frames, n, s') && (n == frames || s'.cursor == f.total)
       case SeekOp(target) => IsSeek(f, s, target, true, s')
  }

  ghost predicate IsRun(f: Stream, states: seq<State>, ops: seq<Op>) {
    && f.Valid() && |states| == |ops| + 1 && states[0] == Start(f)
    && (forall i | 0 <= i < |states| :: states[i].Valid(f))
    && forall i | 0 <= i < |ops| :: Succeeds(f, states[i], ops[i], states[i + 1])
  }

  /** The state of a straight decode from the start, or the end of the file. */
  ghost predicate OnTrack(f: Stream, s: State)
    requires f.Valid()
  {
    s.cursor <= f.total && (s.cursor == f.total || After(f, Start(f), s.cursor) == Some(s))
  }

  lemma SucceedsOnTrack(f: Stream, s: State, op: Op, s': State)
    requires f.Valid() && s.Valid(f) && OnTrack(f, s) && Succeeds(f, s, op, s')
    ensures OnTrack(f, s')
  {
    match op
    case ReadOp(frames) =>
      var n :| IsRead(f, s, frames, n, s') && (n == frames || s'.cursor == f.total);
      ReadOnTrack(f, s, frames, n, s');
    case SeekOp(target) =>
      SeekOnTrack(f, s, target, s');
  }

  lemma ReadOnTrack(f: Stream, s: State, frames: nat, n: nat, s': State)
    requires f.Valid() && s.Valid(f) && s'.Valid(f) && OnTrack(f, s) && frames > 0
    requires IsRead(f, s, frames, n, s') && (n == frames || s'.cursor == f.total)
    ensures OnTrack(f, s')
  {
    hide State.Valid;
    if n == frames {
      CursorBound(f, s, n);
      if s.cursor < f.total {
        AfterAdd(f, Start(f), s.cursor, n);
      }
    }
  }

  /** The decoder stops at the last frame. */
  lemma CursorBound(f: Stream, s: State, n: nat)
    requires f.Valid() && s.Valid(f) && n > 0 && After(f, s, n).Some?
    ensures s.cursor + n <= f.total
  {
  }

  lemma SeekOnTrack(f: Stream, s: State, target: nat, s': State)
    requires f.Valid() && s.Valid(f) && OnTrack(f, s) && IsSeek(f, s, target, true, s')
    ensures OnTrack(f, s')
    ensures f.total > 0 ==> s'.cursor == if target > f.total then f.total else target
  {
    hide NextFrame, State.Valid;
    if f.total > 0 {
      var t := if target > f.total then f.total else target;
      if t >= s.cursor && s.cursor < f.total {
        AfterAdd(f, Start(f), s.cursor, t - s.cursor);
      }
    }
  }

  lemma {:induction false} RunOnTrack(f: Stream, states: seq<State>, ops: seq<Op>)
    requires IsRun(f, states, ops)
    ensures OnTrack(f, states[|ops|])
  {
    if ops != [] {
      var n := |ops| - 1;
      assert states[..|ops|][n] == states[n];
      RunOnTrack(f, states[..|ops|], ops[..n]);
      assert Succeeds(f, states[n], ops[n], states[n + 1]);
      SucceedsOnTrack(f, states[n], ops[n], states[n + 1]);
    }
  }

  /** A state some run of reads and seeks ends in. */
  ghost predicate Reached(f: Stream, s: State) {
    exists states, ops :: IsRun(f, states, ops) && s == states[|ops|]
  }

  lemma ReachedOnTrack(f: Stream, s: State)
    requires Reached(f, s)
    ensures f.Valid() && s.Valid(f) && OnTrack(f, s)
  {
    hide OnTrack, Stream.Valid, State.Valid;
    var states, ops :| IsRun(f, states, ops) && s == states[|ops|];
    RunOnTrack(f, states, ops);
  }

  /** After any run, a seek to frame `t` and a read of `k` frames give frames `t` to `t + k` of one straight
      decode from the start. */
  lemma SeekThenRead(f: Stream, s: State, t: nat, s1: State, k: nat, s2: State)
    requires f.Valid() && s.Valid(f) && Reached(f, s) && t <= f.total && k > 0
    requires IsSeek(f, s, t, true, s1) && s1.Valid(f) && IsRead(f, s1, k, k, s2)
    ensures After(f, Start(f), t) == Some(s1) && After(f, Start(f), t + k) == Some(s2)
    ensures Samples(f, Start(f), t + k) == Samples(f, Start(f), t) + Samples(f, s1, k)
  {
    hide State.Valid, Stream.Valid, NextFrame, After, Samples, Reached, Start;
    ReachedOnTrack(f, s);
    SeekOnTrack(f, s, t, s1);
    CursorBound(f, s1, k);
    SamplesAdd(f, Start(f), t, k);
    AfterAdd(f, Start(f), t, k);
  }

  /** After a read that failed, a seek back to frame `t` succeeds, and all the frames up to the one the failure came
      at are read again as the straight decode from the start has them. */
  lemma SeekBackHeals(f: Stream, s: State, frames: nat, n: nat, s': State, t: nat, ok: bool, s1: State, k: nat, got: nat,
                      s2: State)
    requires f.Valid() && s.Valid(f) && OnTrack(f, s) && n < frames && IsRead(f, s, frames, n, s')
    requires s'.Valid(f) && t < s'.cursor < f.total && t + k <= s'.cursor && IsSeek(f, s', t, ok, s1)
    requires s1.Valid(f) && (ok ==> IsRead(f, s1, k, got, s2))
    ensures ok && got == k
    ensures After(f, Start(f), t) == Some(s1) && After(f, Start(f), t + k) == Some(s2)
    ensures Samples(f, Start(f), t + k) == Samples(f, Start(f), t) + Samples(f, s1, k)
  {
    hide NextFrame, State.Valid, Stream.Valid, OnTrack, Start, After, Samples, Stops;
    LastReached(f, s, frames, n, s');
    AfterPrefix(f, Start(f), t, s'.cursor);
    AfterPrefix(f, Start(f), t + k, s'.cursor);
    AfterAdd(f, Start(f), t, k);
    SamplesAdd(f, Start(f), t, k);
    if got < k {
      NoFirst(f, After(f, s1, got).value, k - got);
      AfterAdd(f, s1, got, k - got);
    }
  }

  /** A state out of which no frame can be got: its cache is empty, and the stream is used up. */
  lemma UsedUp(f: Stream, s: State, n: nat)
    requires f.Valid() && s.Valid(f) && s.count == 0 && s.pos == |f.data| && n > 0
    ensures After(f, s, n).None?
  {
    assert ReadGroup(f, s.(count := 8), 0).None?;
    NextGroup(f, s.(count := 8), s.(count := 8), 0);
    assert Ready(f, s).None?;
    NoFirst(f, s, n);
  }

  lemma NoFirst(f: Stream, s: State, n: nat)
    requires f.Valid() && s.Valid(f) && NextFrame(f, s).None? && n > 0
    ensures After(f, s, n).None?
  {
    assert After(f, s, 0) == Some(s);
    hide NextFrame, State.Valid;
    if n > 1 && After(f, s, n).Some? {
      AfterPrefix(f, s, 1, n);
    }
  }

  /** After a read that failed, no seek forward gets back to the straight decode: there is none to get back to. The
      seek succeeds exactly when frames can be decoded from what the failure left, which they cannot when that is the
      end of the data. */
  lemma SeekForwardLost(f: Stream, s: State, frames: nat, n: nat, s': State, t: nat, ok: bool, s'': State)
    requires f.Valid() && s.Valid(f) && OnTrack(f, s) && n < frames && IsRead(f, s, frames, n, s')
    requires s'.Valid(f) && s'.cursor < t <= f.total && IsSeek(f, s', t, ok, s'')
    ensures After(f, Start(f), t).None?
    ensures ok <==> After(f, s', t - s'.cursor).Some?
    ensures s'.pos == |f.data| ==> !ok
  {
    hide NextFrame, State.Valid, Stream.Valid, IsRead, OnTrack, Start, After, Stops;
    LastReached(f, s, frames, n, s');
    var c, last := s'.cursor, After(f, s, n).value;
    NoFirst(f, last, t - c);
    AfterAdd(f, Start(f), c, t - c);
    if s'.pos == |f.data| {
      UsedUp(f, s', t - c);
    }
  }

  /** A read that failed decoded the straight decode's frames up to its cursor, and there is no next one. */
  lemma LastReached(f: Stream, s: State, frames: nat, n: nat, s': State)
    requires f.Valid() && s.Valid(f) && OnTrack(f, s) && n < frames && IsRead(f, s, frames, n, s') && s'.cursor < f.total
    ensures After(f, s, n).Some? && After(f, Start(f), s'.cursor) == After(f, s, n)
    ensures NextFrame(f, After(f, s, n).value).None? && s'.count == 0
  {
    hide NextFrame, State.Valid, Stream.Valid, IsRead, OnTrack, Start, After;
    ReadFailed(f, s, frames, n, s');
    Located(f, s, n, After(f, s, n).value);
  }

  lemma Located(f: Stream, s: State, n: nat, last: State)
    requires f.Valid() && s.Valid(f) && OnTrack(f, s) && After(f, s, n) == Some(last) && s.cursor + n < f.total
    ensures After(f, Start(f), s.cursor + n) == Some(last)
  {
    hide NextFrame, State.Valid;
    AfterAdd(f, Start(f), s.cursor, n);
  }

  lemma ReadFailed(f: Stream, s: State, frames: nat, n: nat, s': State)
    requires f.Valid() && s.Valid(f) && n < frames && IsRead(f, s, frames, n, s') && s'.cursor < f.total
    ensures After(f, s, n).Some?
    ensures var last := After(f, s, n).value;
      NextFrame(f, last).None? && s'.cursor == s.cursor + n == last.cursor && s'.count == 0
  {
    hide NextFrame, Ready;
    LeftStuck(f, After(f, s, n).value, n > 0);
  }

  /** What is loaded ahead at the end of the file is never seen: nothing more is delivered from there, and a seek back
      starts again. */
  lemma AheadUnseen(f: Stream, s: State, u: State, frames: nat, n: nat, s': State, t: nat, ok: bool)
    requires f.Valid() && s.Valid(f) && u.Valid(f) && s.cursor == u.cursor >= f.total && t < f.total && s'.Valid(f)
    ensures IsRead(f, s, frames, n, s') ==> n == 0
    ensures IsSeek(f, s, t, ok, s') <==> IsSeek(f, u, t, ok, s')
  {
    hide After, Start, NextFrame, State.Valid, Stream.Valid, Stops;
    if IsRead(f, s, frames, n, s') && n > 0 {
      CursorBound(f, s, n);
    }
  }
}
