/** How long the walk over a file's chunks can be (core-interface/wav/dr_wav.h: the loop of `drwav_init__internal`).
    It goes by the position alone, so one that looks at more chunks than there are positions has come back to where
    it was. */
module WavWalk {
  import opened Bytes
  import opened WavFormat
  import opened WavParser

  /** Where the walk goes on after the chunk at `pos`; nothing when it ends there. */
  function NextPos(d: seq<Byte>, c: Container, pos: nat): (r: Option<nat>)
    requires pos <= |d|
    ensures r.Some? ==> r.value <= |d|
  {
    var p := Progress(pos, 0, false, NO_FMT, 0, 0);
    StepInFile(d, c, p);
    var r := ReadChunk(d, c, p);
    if r.More? then Some(r.p.pos) else None
  }

  /** Two steps that lead to the same place. */
  predicate SameStep(r: Step, s: Step) {
    (r.Reject? && s.Reject?) || (r.FoundData? && s.FoundData?) || (r.More? && s.More? && r.p.pos == s.p.pos)
  }

  lemma SameExtension(d: seq<Byte>, c: Container, p: Progress, q: Progress, size: nat)
    requires p.pos == q.pos && p.fmt == q.fmt
    ensures SameStep(ReadExtension(d, c, p, size), ReadExtension(d, c, q, size))
  {
    hide Number, Wrap64;
    if p.pos + 2 <= |d| {
      SameExtensionBody(d, c, p.(pos := p.pos + 2, cursor := Wrap64(p.cursor + 2)), q.(pos := q.pos + 2, cursor := Wrap64(q.cursor + 2)),
        Number(c, d[p.pos..p.pos + 2]), size);
      hide ReadExtensionBody;
    }
  }

  lemma SameExtensionBody(d: seq<Byte>, c: Container, p: Progress, q: Progress, n: nat, size: nat)
    requires p.pos == q.pos && p.fmt == q.fmt
    ensures SameStep(ReadExtensionBody(d, c, p, n, size), ReadExtensionBody(d, c, q, n, size))
  {
    hide Number, Wrap64, ToInt32;
  }

  lemma SameFmtChunk(d: seq<Byte>, c: Container, p: Progress, q: Progress, h: ChunkHeader)
    requires p.pos == q.pos
    ensures SameStep(ReadFmtChunk(d, c, p, h), ReadFmtChunk(d, c, q, h))
  {
    hide ReadExtension, Wrap64, ReadFmt;
    if p.pos + 16 <= |d| {
      var fmt := ReadFmt(c, d[p.pos..p.pos + 16]);
      SameExtension(d, c, p.(pos := p.pos + 16, cursor := Wrap64(p.cursor + 16), foundFmt := true, fmt := fmt, subFormat := 0),
        q.(pos := q.pos + 16, cursor := Wrap64(q.cursor + 16), foundFmt := true, fmt := fmt, subFormat := 0), h.size);
    }
  }

  lemma SameFactChunk(d: seq<Byte>, c: Container, p: Progress, q: Progress, h: ChunkHeader)
    requires p.pos == q.pos
    ensures SameStep(ReadFactChunk(d, c, p, h), ReadFactChunk(d, c, q, h))
  {
    hide Wrap64, FromLittle;
  }

  /** What a chunk leads to depends on its position alone. */
  lemma SameChunk(d: seq<Byte>, c: Container, p: Progress, q: Progress)
    requires p.pos == q.pos <= |d|
    ensures SameStep(ReadChunk(d, c, p), ReadChunk(d, c, q))
  {
    hide ReadHeader, ReadFmtChunk, ReadFactChunk, Wrap64, FmtId, DataId, FactId;
    if ReadHeader(d, c, p.pos).Some? {
      var h := ReadHeader(d, c, p.pos).value;
      var p', q' := p.(pos := h.body, cursor := Wrap64(p.cursor + HeaderBytes(c))), q.(pos := h.body, cursor := Wrap64(q.cursor + HeaderBytes(c)));
      SameFmtChunk(d, c, p', q', h);
      SameFactChunk(d, c, p', q', h);
    }
  }

  lemma SameCourse(d: seq<Byte>, c: Container, p: Progress)
    requires p.pos <= |d|
    ensures var r := ReadChunk(d, c, p); NextPos(d, c, p.pos) == if r.More? then Some(r.p.pos) else None
  {
    hide ReadChunk;
    SameChunk(d, c, p, Progress(p.pos, 0, false, NO_FMT, 0, 0));
  }

  /** The position after `n` chunks. */
  function PosAfter(d: seq<Byte>, c: Container, pos: nat, n: nat): (r: Option<nat>)
    requires pos <= |d|
    ensures r.Some? ==> r.value <= |d|
    decreases n
  {
    if n == 0 then Some(pos)
    else
      match NextPos(d, c, pos)
      case None => None
      case Some(q) => PosAfter(d, c, q, n - 1)
  }

  lemma {:induction false} WalkIsCourse(d: seq<Byte>, c: Container, p: Progress, fuel: nat)
    requires p.pos <= |d|
    ensures WalkChunks(d, c, p, fuel).OutOfFuel? <==> PosAfter(d, c, p.pos, fuel).Some?
    decreases fuel
  {
    hide ReadChunk, NextPos;
    if fuel > 0 {
      StepInFile(d, c, p);
      SameCourse(d, c, p);
      var r := ReadChunk(d, c, p);
      if r.More? {
        WalkIsCourse(d, c, r.p, fuel - 1);
      }
    }
  }

  lemma {:induction false} PosAfterAdd(d: seq<Byte>, c: Container, pos: nat, a: nat, b: nat)
    requires pos <= |d| && PosAfter(d, c, pos, a).Some?
    ensures PosAfter(d, c, pos, a + b) == PosAfter(d, c, PosAfter(d, c, pos, a).value, b)
    decreases a
  {
    hide NextPos;
    if a > 0 {
      PosAfterAdd(d, c, NextPos(d, c, pos).value, a - 1, b);
    }
  }

  lemma {:induction false} PosAfterPrefix(d: seq<Byte>, c: Container, pos: nat, a: nat, b: nat)
    requires pos <= |d| && a <= b && PosAfter(d, c, pos, b).Some?
    ensures PosAfter(d, c, pos, a).Some?
    decreases a
  {
    hide NextPos;
    if a > 0 {
      PosAfterPrefix(d, c, NextPos(d, c, pos).value, a - 1, b - 1);
    }
  }

  /** Of more numbers below `n` than `n`, two are equal. */
  lemma {:induction false} TwoEqual(s: seq<nat>, n: nat) returns (i: nat, j: nat)
    requires |s| > n && forall x <- s :: x < n
    ensures i < j < |s| && s[i] == s[j]
    decreases n
  {
    var k := |s| - 1;
    if exists m | 0 <= m < k :: s[m] == s[k] {
      var m: nat :| m < k && s[m] == s[k];
      return m, k;
    }
    assert s[k] in s;
    var t := seq(k, m requires 0 <= m < k => if s[m] > s[k] then s[m] - 1 else s[m]);
    forall x | x in t
      ensures x < n - 1
    {
      var m :| 0 <= m < k && t[m] == x;
      assert s[m] in s && s[m] != s[k];
    }
    i, j := TwoEqual(t, n - 1);
    assert s[i] != s[k] && s[j] != s[k];
  }

  /** A walk that has come back to a position never ends. */
  lemma {:induction false} GoesRound(d: seq<Byte>, c: Container, pos: nat, i: nat, j: nat, n: nat)
    requires pos <= |d| && i < j && PosAfter(d, c, pos, i).Some? && PosAfter(d, c, pos, i) == PosAfter(d, c, pos, j)
    ensures PosAfter(d, c, pos, n).Some?
    decreases n
  {
    hide PosAfter;
    if n <= j {
      PosAfterPrefix(d, c, pos, n, j);
    } else {
      PosAfterAdd(d, c, pos, i, n - j);
      PosAfterAdd(d, c, pos, j, n - j);
      GoesRound(d, c, pos, i, j, i + (n - j));
    }
  }

  /** A walk that is still going on after `Enough` chunks goes on forever. */
  lemma GoesOn(d: seq<Byte>, c: Container, pos: nat, n: nat)
    requires pos <= |d| && PosAfter(d, c, pos, Enough(d)).Some?
    ensures PosAfter(d, c, pos, n).Some?
  {
    forall k: nat | k <= Enough(d)
      ensures PosAfter(d, c, pos, k).Some?
    {
      PosAfterPrefix(d, c, pos, k, Enough(d));
    }
    hide PosAfter;
    var s := seq(|d| + 2, k requires 0 <= k < |d| + 2 => PosAfter(d, c, pos, k).value);
    var i, j := TwoEqual(s, |d| + 1);
    GoesRound(d, c, pos, i, j, n);
  }

  lemma {:induction false} MoreFuel(d: seq<Byte>, c: Container, p: Progress, fuel: nat, more: nat)
    requires p.pos <= |d| && fuel <= more && !WalkChunks(d, c, p, fuel).OutOfFuel?
    ensures WalkChunks(d, c, p, more) == WalkChunks(d, c, p, fuel)
    decreases fuel
  {
    hide ReadChunk;
    StepInFile(d, c, p);
    var r := ReadChunk(d, c, p);
    if r.More? {
      MoreFuel(d, c, r.p, fuel - 1, more - 1);
    }
  }

  /** Looking at `Enough` chunks decides the walk: it ends as it ends then, or it never ends. */
  lemma WalkDecided(d: seq<Byte>, c: Container, p: Progress, fuel: nat)
    requires p.pos <= |d|
    ensures var r := WalkChunks(d, c, p, Enough(d));
      if r.OutOfFuel? then WalkChunks(d, c, p, fuel).OutOfFuel?
      else WalkChunks(d, c, p, fuel) == r || (fuel < Enough(d) && WalkChunks(d, c, p, fuel).OutOfFuel?)
  {
    WalkIsCourse(d, c, p, Enough(d));
    WalkIsCourse(d, c, p, fuel);
    hide WalkChunks, PosAfter;
    if WalkChunks(d, c, p, Enough(d)).OutOfFuel? {
      GoesOn(d, c, p.pos, fuel);
    } else if fuel >= Enough(d) {
      MoreFuel(d, c, p, Enough(d), fuel);
    } else if !WalkChunks(d, c, p, fuel).OutOfFuel? {
      MoreFuel(d, c, p, fuel, Enough(d));
    }
  }

  /** No "fmt " chunk claims a size of 2^31 bytes or more. */
  predicate PlausibleSizes(d: seq<Byte>, c: Container) {
    forall pos: nat | pos <= |d| :: FmtSizeAt(d, c, pos) < 0x8000_0000
  }

  function FmtSizeAt(d: seq<Byte>, c: Container, pos: nat): nat
    requires pos <= |d|
  {
    match ReadHeader(d, c, pos)
    case None => 0
    case Some(h) => if h.id == FmtId(c) then h.size else 0
  }

  /** The end of a "fmt " chunk is found going forward or backward, whatever length its extension has. */
  lemma ExtensionEnd(d: seq<Byte>, c: Container, p: Progress, n: nat, size: nat)
    requires 16 < size < 0x8000_0000 && n < 0x1_0000
    ensures var r := ReadExtensionBody(d, c, p, n, size); r.More? ==> r.p.pos == p.pos + size - 18
  {
    var left: int := size - (18 + n);
    LowHalf(left);
    hide Number, Wrap64, ToInt32;
  }

  lemma LowHalf(x: int)
    requires -0x8000_0000 <= x < 0x8000_0000
    ensures ToInt32(Wrap64(x) % TWO_TO_THE_32) == x
  {
  }

  lemma TwoBytes(c: Container, s: seq<Byte>)
    requires |s| == 2
    ensures Number(c, s) < 0x1_0000
  {
    var a, b: nat := s[0], s[1];
    assert FromLittle(s[1..][1..]) == 0 && FromBig(s[..1][..0]) == 0;
    assert FromLittle(s[1..]) == b && FromBig(s[..1]) == a;
    assert FromLittle(s) == a + 256 * b && FromBig(s) == 256 * a + b;
  }

  lemma FmtMovesOn(d: seq<Byte>, c: Container, p: Progress, h: ChunkHeader)
    requires h.size < 0x8000_0000
    ensures var r := ReadFmtChunk(d, c, p, h); r.More? ==> r.p.pos > p.pos
  {
    hide Number, Wrap64, ReadFmt, ReadExtensionBody;
    if h.size > 16 && p.pos + 18 <= |d| {
      var q := p.(pos := p.pos + 16, cursor := Wrap64(p.cursor + 16), foundFmt := true, fmt := ReadFmt(c, d[p.pos..p.pos + 16]), subFormat := 0);
      TwoBytes(c, d[q.pos..q.pos + 2]);
      ExtensionEnd(d, c, q.(pos := q.pos + 2, cursor := Wrap64(q.cursor + 2)), Number(c, d[q.pos..q.pos + 2]), h.size);
    }
  }

  /** Then every chunk moves the walk on, so it ends. */
  lemma MovesOn(d: seq<Byte>, c: Container, pos: nat)
    requires pos <= |d| && FmtSizeAt(d, c, pos) < 0x8000_0000
    ensures NextPos(d, c, pos).Some? ==> NextPos(d, c, pos).value > pos
  {
    hide ReadHeader, ReadFmtChunk, Wrap64, FromLittle, FmtId, DataId, FactId;
    if ReadHeader(d, c, pos).Some? {
      var h := ReadHeader(d, c, pos).value;
      if h.id == FmtId(c) {
        FmtMovesOn(d, c, Progress(h.body, Wrap64(HeaderBytes(c)), false, NO_FMT, 0, 0), h);
      }
    }
  }

  lemma {:induction false} Advances(d: seq<Byte>, c: Container, pos: nat, n: nat)
    requires pos <= |d| && PlausibleSizes(d, c) && PosAfter(d, c, pos, n).Some?
    ensures PosAfter(d, c, pos, n).value >= pos + n
    decreases n
  {
    hide NextPos, FmtSizeAt;
    if n > 0 {
      assert FmtSizeAt(d, c, pos) < 0x8000_0000;
      MovesOn(d, c, pos);
      Advances(d, c, NextPos(d, c, pos).value, n - 1);
    }
  }

  lemma WalkEnds(d: seq<Byte>, c: Container, p: Progress)
    requires p.pos <= |d| && PlausibleSizes(d, c)
    ensures !WalkChunks(d, c, p, Enough(d)).OutOfFuel?
  {
    WalkIsCourse(d, c, p, Enough(d));
    if PosAfter(d, c, p.pos, Enough(d)).Some? {
      Advances(d, c, p.pos, Enough(d));
    }
  }

  lemma UnfinishedWalk(d: seq<Byte>)
    ensures Parse(d).Unfinished? <==>
      ReadOpening(d).Some? && WalkChunks(d, ReadOpening(d).value.container, FirstProgress(ReadOpening(d).value), Enough(d)).OutOfFuel?
  {
    hide WalkChunks, ReadOpening;
  }

  /** A file is left unfinished exactly when the walk over its chunks ends after no number of them; a "fmt " chunk of
      2^31 bytes or more is needed for that. */
  lemma UnfinishedIsForever(d: seq<Byte>)
    ensures Parse(d).Unfinished? <==>
      ReadOpening(d).Some? && forall fuel :: WalkChunks(d, ReadOpening(d).value.container, FirstProgress(ReadOpening(d).value), fuel).OutOfFuel?
    ensures Parse(d).Unfinished? ==> !PlausibleSizes(d, ReadOpening(d).value.container)
  {
    UnfinishedWalk(d);
    hide WalkChunks, ReadOpening, PlausibleSizes, Parse;
    if ReadOpening(d).Some? {
      var o := ReadOpening(d).value;
      forall fuel: nat
        ensures WalkChunks(d, o.container, FirstProgress(o), Enough(d)).OutOfFuel? ==> WalkChunks(d, o.container, FirstProgress(o), fuel).OutOfFuel?
      {
        WalkDecided(d, o.container, FirstProgress(o), fuel);
      }
      if PlausibleSizes(d, o.container) {
        WalkEnds(d, o.container, FirstProgress(o));
      }
    }
  }
}
