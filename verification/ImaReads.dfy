/** What a read of an IMA ADPCM file puts into its buffer, told by the bytes of the file's blocks
    (core-interface/wav/dr_wav.h: `drwav_read_pcm_frames_s16__ima`, `drwav_seek_to_pcm_frame`). */
module ImaReads {
  import opened Bytes
  import opened ImaDecoder
  import opened ImaReader
  import opened ImaSamples

  /** A read on the straight decode delivers the frames from its cursor on with the samples their bytes say. */
  lemma ReadDecodes(f: Stream, s: State, frames: nat, got: nat, s': State, i: nat, c: nat)
    requires Grouped(f) && s.Valid(f) && OnTrack(f, s) && IsRead(f, s, frames, got, s') && i < got && c < f.channels
    ensures Present(f, s.cursor + i) && 0 <= i * f.channels && i * f.channels + c < |Samples(f, s, got)|
    ensures Samples(f, s, got)[i * f.channels + c] == Sample(f, s.cursor + i, c)
  {
    hide NextFrame, State.Valid, Samples, Present, Sample, After;
    var t := s.cursor;
    CursorBound(f, s, got);
    AfterAdd(f, Start(f), t, got);
    SamplesAdd(f, Start(f), t, got);
    SamplesDecoded(f, t + got, t + i, c);
    Indexed(t, i, got, f.channels, c);
  }

  lemma Indexed(t: nat, i: nat, n: nat, channels: nat, c: nat)
    requires i < n && c < channels <= 2
    ensures (t + i) * channels == t * channels + i * channels
    ensures 0 <= t * channels && 0 <= i * channels && i * channels + c < n * channels
  {
    assert channels == 1 || channels == 2;
  }

  /** It stops early only at the end of the file, or at a frame whose bytes are not there. */
  lemma ReadStops(f: Stream, s: State, frames: nat, got: nat, s': State)
    requires Grouped(f) && s.Valid(f) && OnTrack(f, s) && IsRead(f, s, frames, got, s') && got < frames
    ensures s.cursor + got == f.total || (s.cursor + got < f.total && !Present(f, s.cursor + got))
  {
    hide NextFrame, State.Valid, Stream.Valid, Present, Standing, After, Left;
    if got > 0 {
      CursorBound(f, s, got);
    }
    var t := s.cursor + got;
    if s.cursor < f.total && t < f.total {
      AfterAdd(f, Start(f), s.cursor, got);
      AllStand(f, t);
      NextDecodes(f, After(f, Start(f), t).value, t);
    }
  }

  /** So after any run of reads and seeks: what is in the buffer. */
  lemma BufferDecoded(f: Stream, s: State, frames: nat, got: nat, s': State, buffer: seq<int>, before: seq<int>, i: nat, c: nat)
    requires Grouped(f) && s.Valid(f) && Reached(f, s) && IsRead(f, s, frames, got, s') && i < got && c < f.channels
    requires Delivered(buffer, before, f, s, got)
    ensures Present(f, s.cursor + i) && 0 <= i * f.channels && i * f.channels + c < |buffer|
    ensures buffer[i * f.channels + c] == Sample(f, s.cursor + i, c)
  {
    hide NextFrame, State.Valid, Samples, Present, Sample, After, OnTrack, Reached, IsRead;
    ReachedOnTrack(f, s);
    ReadDecodes(f, s, frames, got, s', i, c);
  }

  /** A block whose header has a step index outside the table is skipped: the read that comes to it ends there, and the
      next one goes on with the block after it. */
  lemma BadBlockSkipped(f: Stream, s: State, p: nat)
    requires Grouped(f) && s.Valid(f) && s.pos == p && s.count == 0 && s.blockBytes == 0 && s.cursor < f.total
    requires p + f.blockAlign <= |f.data| && !HasHeader(f, p)
    ensures NextFrame(f, s).None?
    ensures var u := Stuck(f, s);
      && u.pos == p + f.blockAlign && u.count == 0 && u.blockBytes == 0 && u.cursor == s.cursor
      && if HasFrame(f, u.pos, 0) then DeliversNext(f, u, u.pos, 0) else NextFrame(f, u).None?
  {
    hide State.Valid, NextFrame, HasHeader, DeliversNext;
    BlockDelivers(f, s, p);
    NoHeader(f, s, p);
    BlockDelivers(f, Stuck(f, s), p + f.blockAlign);
  }

  lemma NoHeader(f: Stream, s: State, p: nat)
    requires Grouped(f) && s.Valid(f) && s.pos == p && s.count == 0 && s.blockBytes == 0
    requires p + f.blockAlign <= |f.data| && !HasHeader(f, p)
    ensures Ready(f, s).None?
    ensures var u := Stuck(f, s);
      u.pos == p + f.blockAlign && u.count == 0 && u.blockBytes == 0
  {
    hide State.Valid, HasHeader, LoadBlock;
    HeaderMissing(f, s, p);
  }
}
