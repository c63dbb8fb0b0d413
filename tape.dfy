/**
 * The scratch tape as bytes, and what the reads of a reader connection take from it.
 *
 * A frame is `fs` consecutive bytes (all channels of one sample); tape frame `f`
 * occupies bytes `Bytes(f, fs) .. Bytes(f + 1, fs)`. The copy loop of
 * `getPcmBufferVerse` is the fold `CopySectors` over the sectors that
 * `getSectorsFromOffset` returns; `ReadVerse` is the whole of `getPcmBufferVerse`
 * once the file is open, and `AdvanceAfterRead` its final jump to the next verse.
 * `Drain` is the loop `trimScratchAudio` runs over a reader, and `CleanTape` the
 * tape that trimming is meant to produce.
 */
module ScratchTape {
  import opened Wrappers
  import opened Markers
  import opened VerseNodes
  import opened Chapter

  /** The size in bytes of one frame. */
  type FrameSize = n: int | 0 < n witness 1

  /** Kotlin's `DEFAULT_BUFFER_SIZE`, the buffer `trimScratchAudio` reads with. */
  const DefaultBufferSize: int := 8192

  // ---------------------------------------------------------------------------
  // Frame arithmetic

  /** `n * frameSizeInBytes`: the byte offset of frame `n`. */
  function Bytes(n: int, fs: FrameSize): int {
    n * fs
  }

  /** `b / frameSizeInBytes` on `Int`, which truncates toward zero: the frame holding byte `b`. */
  function FrameOf(b: int, fs: FrameSize): int {
    TruncDiv(b, fs)
  }

  /** `Bytes` is multiplication by the frame size. */
  lemma {:induction false} MulStep(k: int, fs: FrameSize)
    requires k >= 1
    ensures k * fs >= fs
  {
    assert k * fs == (k - 1) * fs + fs;
    assert (k - 1) * fs >= 0;
  }

  /** The unique split of `b` into whole frames and a remainder. */
  lemma {:induction false} DivUnique(b: int, fs: FrameSize, q: int)
    requires q * fs <= b < q * fs + fs
    ensures b / fs == q
  {
    var d := b / fs;
    assert b == d * fs + b % fs;
    if d > q {
      MulStep(d - q, fs);
    } else if d < q {
      MulStep(q - d, fs);
    }
  }

  lemma {:induction false} BytesAdd(a: int, b: int, fs: FrameSize)
    ensures Bytes(a + b, fs) == Bytes(a, fs) + Bytes(b, fs)
  {
    assert (a + b) * fs == a * fs + b * fs;
  }

  lemma {:induction false} BytesMonotone(a: int, b: int, fs: FrameSize)
    requires a <= b
    ensures Bytes(a, fs) <= Bytes(b, fs)
    ensures 0 <= a ==> 0 <= Bytes(a, fs)
  {
    assert b * fs - a * fs == (b - a) * fs;
    assert (b - a) * fs >= 0;
    if 0 <= a {
      assert a * fs >= 0;
    }
  }

  /** The whole frames in `b` bytes take at most `b` bytes, and one frame more takes more. */
  lemma {:induction false} FrameOfBrackets(b: int, fs: FrameSize)
    requires 0 <= b
    ensures 0 <= FrameOf(b, fs)
    ensures Bytes(FrameOf(b, fs), fs) <= b < Bytes(FrameOf(b, fs) + 1, fs)
  {
    var q := b / fs;
    assert b == q * fs + b % fs;
    assert (q + 1) * fs == q * fs + fs;
  }

  /** A byte offset that is a whole number of frames converts back to that frame. */
  lemma {:induction false} FrameOfBytes(x: int, fs: FrameSize)
    ensures FrameOf(Bytes(x, fs), fs) == x
  {
    if x >= 0 {
      assert x * fs >= 0;
      DivUnique(x * fs, fs, x);
    } else {
      assert -(x * fs) == (-x) * fs;
      assert (-x) * fs >= 0;
      DivUnique((-x) * fs, fs, -x);
    }
  }

  /** Moving a cursor at or after the tape's start by `k` whole frames moves its frame by `k`. */
  lemma {:induction false} FrameOfShift(b: int, k: int, fs: FrameSize)
    requires 0 <= b && 0 <= k
    ensures FrameOf(b + Bytes(k, fs), fs) == FrameOf(b, fs) + k
  {
    var q := b / fs;
    assert b == q * fs + b % fs;
    assert k * fs >= 0;
    assert (q + k) * fs == q * fs + k * fs;
    DivUnique(b + k * fs, fs, q + k);
  }

  /** `m` whole frames fit in `size` bytes when `m` is at most `size / fs`. */
  lemma {:induction false} WholeFramesFit(m: int, size: int, fs: FrameSize)
    requires 0 <= size && 0 <= m <= FrameOf(size, fs)
    ensures 0 <= Bytes(m, fs) <= size
  {
    FrameOfBrackets(size, fs);
    BytesMonotone(m, FrameOf(size, fs), fs);
  }

  /** A cursor at or after the tape's start lies in the frame `FrameOf` gives. */
  lemma {:induction false} CursorFrame(b: int, fs: FrameSize)
    ensures 0 <= b ==> 0 <= FrameOf(b, fs) && Bytes(FrameOf(b, fs), fs) <= b < Bytes(FrameOf(b, fs) + 1, fs)
  {
    if 0 <= b {
      FrameOfBrackets(b, fs);
    }
  }

  lemma {:induction false} FrameOfNonNegative(b: int, fs: FrameSize)
    requires 0 <= b
    ensures 0 <= FrameOf(b, fs)
  {
    FrameOfBrackets(b, fs);
  }


  // ---------------------------------------------------------------------------
  // The audio of frames

  /** `tape[a..b]` with both ends cut to the tape. */
  function Slice(tape: seq<bv8>, a: int, b: int): (r: seq<bv8>)
    ensures 0 <= a <= b <= |tape| ==> r == tape[a..b]
    ensures |r| <= |tape|
  {
    var lo := Max(0, Min(a, |tape|));
    var hi := Max(lo, Min(b, |tape|));
    tape[lo..hi]
  }

  /** The bytes of tape frame `f`. */
  ghost function FrameBytes(tape: seq<bv8>, fs: FrameSize, f: int): seq<bv8> {
    Slice(tape, Bytes(f, fs), Bytes(f + 1, fs))
  }

  /** The audio of a list of frames: their bytes, one frame after the other. */
  ghost function FramesAudio(tape: seq<bv8>, fs: FrameSize, frames: seq<int>): seq<bv8> {
    if frames == [] then [] else FrameBytes(tape, fs, frames[0]) + FramesAudio(tape, fs, frames[1..])
  }

  /** The tape holds every byte of every listed sector. */
  ghost predicate Covers(tape: seq<bv8>, fs: FrameSize, ss: seq<Sector>) {
    forall i :: 0 <= i < |ss| ==> 0 <= ss[i].first && Bytes(ss[i].last + 1, fs) <= |tape|
  }

  lemma {:induction false} FramesAudioAppend(tape: seq<bv8>, fs: FrameSize, a: seq<int>, b: seq<int>)
    ensures FramesAudio(tape, fs, a + b) == FramesAudio(tape, fs, a) + FramesAudio(tape, fs, b)
  {
    if a == [] {
      assert a + b == b;
    } else {
      assert (a + b)[0] == a[0] && (a + b)[1..] == a[1..] + b;
      FramesAudioAppend(tape, fs, a[1..], b);
    }
  }

  lemma {:induction false} FrameBytesOnTape(tape: seq<bv8>, fs: FrameSize, f: int)
    requires 0 <= f && Bytes(f + 1, fs) <= |tape|
    ensures 0 <= Bytes(f, fs) && Bytes(f + 1, fs) == Bytes(f, fs) + fs
    ensures FrameBytes(tape, fs, f) == tape[Bytes(f, fs) .. Bytes(f + 1, fs)]
    ensures |FrameBytes(tape, fs, f)| == fs
  {
    BytesMonotone(0, f, fs);
    BytesAdd(f, 1, fs);
  }

  /** The audio of the frames `a, a + 1, ..., a + k - 1` is the tape's bytes from frame `a` to frame `a + k`. */
  lemma {:induction false} RangeAudio(tape: seq<bv8>, fs: FrameSize, a: int, k: nat)
    requires 0 <= a && Bytes(a + k, fs) <= |tape|
    ensures 0 <= Bytes(a, fs) <= Bytes(a + k, fs)
    ensures FramesAudio(tape, fs, Run(a, k)) == tape[Bytes(a, fs) .. Bytes(a + k, fs)]
    decreases k
  {
    BytesMonotone(0, a, fs);
    BytesMonotone(a, a + k, fs);
    if k == 0 {
      assert Run(a, k) == [];
    } else {
      BytesMonotone(a + 1, a + k, fs);
      RangeAudio(tape, fs, a + 1, k - 1);
      RangeAudioStep(tape, fs, a, k);
    }
  }

  /** One more frame at the front of a run: its bytes precede the run's bytes on the tape. */
  lemma {:induction false} RangeAudioStep(tape: seq<bv8>, fs: FrameSize, a: int, k: nat)
    requires 0 <= a && k > 0 && Bytes(a + k, fs) <= |tape|
    requires 0 <= Bytes(a + 1, fs) <= Bytes(a + k, fs)
    requires FramesAudio(tape, fs, Run(a + 1, k - 1)) == tape[Bytes(a + 1, fs) .. Bytes(a + k, fs)]
    ensures FramesAudio(tape, fs, Run(a, k)) == tape[Bytes(a, fs) .. Bytes(a + k, fs)]
  {
    var run := Run(a, k);
    assert run[0] == a && run[1..] == Run(a + 1, k - 1);
    FrameBytesOnTape(tape, fs, a);
    var p, q, r := Bytes(a, fs), Bytes(a + 1, fs), Bytes(a + k, fs);
    assert FramesAudio(tape, fs, run) == tape[p..q] + tape[q..r];
    SliceJoin(tape, p, q, r);
  }

  /** Two adjacent slices of a tape make the slice that spans both. */
  lemma {:induction false} SliceJoin(t: seq<bv8>, p: int, q: int, r: int)
    requires 0 <= p <= q <= r <= |t|
    ensures t[p..q] + t[q..r] == t[p..r]
  {
  }

  /** The audio of a sector is its run of bytes on the tape. */
  lemma {:induction false} SectorAudio(tape: seq<bv8>, fs: FrameSize, s: Sector)
    requires 0 <= s.first <= s.last && Bytes(s.last + 1, fs) <= |tape|
    ensures 0 <= Bytes(s.first, fs) <= Bytes(s.last + 1, fs)
    ensures Bytes(s.first, fs) + Bytes(s.Length(), fs) == Bytes(s.last + 1, fs)
    ensures FramesAudio(tape, fs, s.Frames()) == tape[Bytes(s.first, fs) .. Bytes(s.last + 1, fs)]
    ensures SectorBytes(tape, fs, s) == FramesAudio(tape, fs, s.Frames())
    ensures |FramesAudio(tape, fs, s.Frames())| == Bytes(s.Length(), fs)
  {
    var k := s.Length();
    assert s.first + k == s.last + 1;
    SectorFramesAreRun(s);
    RangeAudio(tape, fs, s.first, k);
    BytesAdd(s.first, k, fs);
  }

  lemma {:induction false} CoversTail(tape: seq<bv8>, fs: FrameSize, ss: seq<Sector>)
    requires ss != [] && Covers(tape, fs, ss) && NonEmptySectors(ss)
    ensures Covers(tape, fs, ss[1..]) && NonEmptySectors(ss[1..])
    ensures 0 <= ss[0].first <= ss[0].last && Bytes(ss[0].last + 1, fs) <= |tape|
  {
    assert forall i :: 0 <= i < |ss| - 1 ==> ss[1..][i] == ss[i + 1];
  }

  lemma {:induction false} FramesAudioLength(tape: seq<bv8>, fs: FrameSize, frames: seq<int>)
    requires forall i :: 0 <= i < |frames| ==> 0 <= frames[i] && Bytes(frames[i] + 1, fs) <= |tape|
    ensures |FramesAudio(tape, fs, frames)| == Bytes(|frames|, fs)
  {
    if frames != [] {
      FramesAudioLength(tape, fs, frames[1..]);
      FrameBytesOnTape(tape, fs, frames[0]);
      BytesAdd(1, |frames| - 1, fs);
    }
  }

  /** The index of a sector holding a frame the sectors hold. */
  lemma {:induction false} SectorHolding(ss: seq<Sector>, x: int) returns (i: int)
    requires InSectors(ss, x)
    ensures 0 <= i < |ss| && ss[i].Has(x)
  {
    if ss[0].Has(x) {
      i := 0;
    } else {
      i := SectorHolding(ss[1..], x);
      i := i + 1;
    }
  }

  // ---------------------------------------------------------------------------
  // The compacted tape

  /** The bytes of a sector, cut at the tape's end. */
  function SectorBytes(tape: seq<bv8>, fs: FrameSize, s: Sector): seq<bv8> {
    Slice(tape, Bytes(s.first, fs), Bytes(s.last + 1, fs))
  }

  function SectorsBytes(tape: seq<bv8>, fs: FrameSize, ss: seq<Sector>): seq<bv8> {
    if ss == [] then [] else SectorBytes(tape, fs, ss[0]) + SectorsBytes(tape, fs, ss[1..])
  }

  /** The tape trimming is meant to write: each active verse's sectors, verse after verse. */
  function CleanTape(tape: seq<bv8>, fs: FrameSize, active: seq<Verse>): seq<bv8> {
    if active == [] then [] else SectorsBytes(tape, fs, active[0].sectors) + CleanTape(tape, fs, active[1..])
  }

  /** Every sector of every verse lies on the tape. */
  ghost predicate CoversVerses(tape: seq<bv8>, fs: FrameSize, vs: seq<Verse>) {
    forall i :: 0 <= i < |vs| ==> Covers(tape, fs, vs[i].sectors)
  }

  lemma {:induction false} SectorsBytesAreAudio(tape: seq<bv8>, fs: FrameSize, ss: seq<Sector>)
    requires NonEmptySectors(ss) && Covers(tape, fs, ss)
    ensures SectorsBytes(tape, fs, ss) == FramesAudio(tape, fs, SectorFrames(ss))
  {
    if ss != [] {
      CoversTail(tape, fs, ss);
      SectorsBytesAreAudio(tape, fs, ss[1..]);
      SectorAudio(tape, fs, ss[0]);
      FramesAudioAppend(tape, fs, ss[0].Frames(), SectorFrames(ss[1..]));
    }
  }

  /** The compacted tape is the chapter's audio: the bytes of the chapter's frames in order. */
  lemma {:induction false} CleanTapeIsChapterAudio(tape: seq<bv8>, fs: FrameSize, active: seq<Verse>)
    requires AllNonEmpty(active) && CoversVerses(tape, fs, active)
    ensures CleanTape(tape, fs, active) == FramesAudio(tape, fs, ChapterFrames(active))
  {
    if active != [] {
      assert AllNonEmpty(active[1..]) && CoversVerses(tape, fs, active[1..]) by {
        forall i | 0 <= i < |active| - 1
          ensures NonEmptySectors(active[1..][i].sectors) && Covers(tape, fs, active[1..][i].sectors)
        {
          assert active[1..][i] == active[i + 1];
        }
      }
      CleanTapeIsChapterAudio(tape, fs, active[1..]);
      SectorsBytesAreAudio(tape, fs, active[0].sectors);
      FramesAudioAppend(tape, fs, active[0].Frames(), ChapterFrames(active[1..]));
    }
  }

  /** Every frame of the chapter lies on a tape that holds every active verse's sectors. */
  lemma {:induction false} CoveredFrames(tape: seq<bv8>, fs: FrameSize, active: seq<Verse>)
    requires AllNonEmpty(active) && CoversVerses(tape, fs, active)
    ensures forall j :: 0 <= j < |ChapterFrames(active)| ==>
      0 <= ChapterFrames(active)[j] && Bytes(ChapterFrames(active)[j] + 1, fs) <= |tape|
  {
    var cf := ChapterFrames(active);
    forall j | 0 <= j < |cf| ensures 0 <= cf[j] && Bytes(cf[j] + 1, fs) <= |tape| {
      var x := cf[j];
      FindVerseIffInChapter(active, x);
      var k := FindVerse(active, x);
      var i := SectorHolding(active[k].sectors, x);
      assert Covers(tape, fs, active[k].sectors);
      BytesMonotone(x + 1, active[k].sectors[i].last + 1, fs);
    }
  }

  /**
   * Trimming keeps the chapter's audio: the compacted tape holds exactly the
   * chapter's frames, and reading the trimmed verses from it gives the bytes that
   * reading the old verses from the old tape gave.
   */
  lemma {:induction false} TrimPreservesAudio(tape: seq<bv8>, fs: FrameSize, vs: seq<Verse>)
    requires AllNonEmpty(vs) && CoversVerses(tape, fs, ActiveVerses(vs))
    ensures |CleanTape(tape, fs, ActiveVerses(vs))| == Bytes(TotalFrames(vs), fs)
    ensures FramesAudio(CleanTape(tape, fs, ActiveVerses(vs)), fs, ChapterFrames(ActiveVerses(TrimFrom(vs, 0))))
         == FramesAudio(tape, fs, ChapterFrames(ActiveVerses(vs)))
  {
    var a := ActiveVerses(vs);
    var clean := CleanTape(tape, fs, a);
    var n := TotalFrames(vs);
    AllWellFormedActiveNonEmpty(vs);
    CleanTapeIsChapterAudio(tape, fs, a);
    CoveredFrames(tape, fs, a);
    FramesAudioLength(tape, fs, ChapterFrames(a));
    ChapterFramesLength(a);
    TrimmedFramesContiguous(vs, 0);
    assert |ChapterFrames(a)| == n;
    assert |clean| == Bytes(n, fs);
    WholeTapeAudio(clean, fs, n);
  }

  /** A tape of exactly `n` frames is the audio of the frames `0, 1, ..., n - 1`. */
  lemma {:induction false} WholeTapeAudio(tape: seq<bv8>, fs: FrameSize, n: nat)
    requires |tape| == Bytes(n, fs)
    ensures FramesAudio(tape, fs, Run(0, n)) == tape
  {
    RangeAudio(tape, fs, 0, n);
    assert tape[0 .. |tape|] == tape;
  }

  // ---------------------------------------------------------------------------
  // One read of a reader connection

  /**
   * `RandomAccessFile.read(temp)` after `seek(seekLoc)` on a tape of `tapeLen` bytes,
   * with `|temp| == len`: 0 for an empty buffer, -1 at or past the end of the tape,
   * and otherwise as many bytes as the buffer and the tape allow.
   */
  function ReadCount(tapeLen: int, seekLoc: int, len: int): (n: int)
    requires 0 <= seekLoc && 0 <= len
    ensures n == -1 || 0 <= n <= len
    ensures n > 0 ==> seekLoc + n <= tapeLen
    ensures n == -1 <==> len > 0 && seekLoc >= tapeLen
    ensures 0 < len && seekLoc + len <= tapeLen ==> n == len
  {
    if len == 0 then 0 else if seekLoc >= tapeLen then -1 else Min(len, tapeLen - seekLoc)
  }

  /** The state of the copy loop: bytes written, the cursor (in bytes), frames still wanted, and the caller's buffer. */
  datatype Cursor = Cursor(written: int, position: int, toRead: int, buf: seq<bv8>)

  /**
   * One pass of the copy loop for `s`: read up to `toRead` frames of the sector from
   * the tape and append them to the buffer (nothing changes when the copy would
   * overrun the buffer or the read hit the end of the tape, which the source catches
   * as an `ArrayIndexOutOfBoundsException`), then pull the cursor back to the
   * sector's last frame if it left the sector.
   */
  function CopySector(tape: seq<bv8>, fs: FrameSize, s: Sector, c: Cursor): (r: Cursor)
    requires 0 <= s.first
    requires 0 <= c.written <= |c.buf|
    ensures |r.buf| == |c.buf| && c.written <= r.written <= |c.buf|
    ensures r.buf[..c.written] == c.buf[..c.written] && r.buf[r.written..] == c.buf[r.written..]
  {
    var frames := Max(Min(c.toRead, s.Length()), 0);
    BytesMonotone(0, s.first, fs);
    BytesMonotone(0, frames, fs);
    var seekLoc := Bytes(s.first, fs);
    var toCopy := ReadCount(|tape|, seekLoc, Bytes(frames, fs));
    // A copy of zero bytes changes nothing, so it shares the failure branch.
    var copied :=
      if toCopy <= 0 || c.written + toCopy > |c.buf| then c
      else Cursor(c.written + toCopy, c.position + toCopy, c.toRead - FrameOf(toCopy, fs),
                  c.buf[..c.written] + tape[seekLoc .. seekLoc + toCopy] + c.buf[c.written + toCopy..]);
    if s.Has(FrameOf(copied.position, fs)) then copied else copied.(position := Bytes(s.last, fs))
  }

  /** A sector on the tape that fits the request and the buffer is copied whole, and the cursor ends inside it. */
  lemma {:induction false} CopySectorWhole(tape: seq<bv8>, fs: FrameSize, s: Sector, c: Cursor)
    requires 0 <= s.first <= s.last && Bytes(s.last + 1, fs) <= |tape|
    requires 0 <= c.written <= |c.buf| && c.written + Bytes(s.Length(), fs) <= |c.buf|
    requires c.toRead >= s.Length()
    ensures CopySector(tape, fs, s, c).written == c.written + Bytes(s.Length(), fs)
    ensures CopySector(tape, fs, s, c).buf
         == c.buf[..c.written] + FramesAudio(tape, fs, s.Frames()) + c.buf[c.written + Bytes(s.Length(), fs)..]
    ensures CopySector(tape, fs, s, c).toRead == c.toRead - s.Length()
    ensures |FramesAudio(tape, fs, s.Frames())| == Bytes(s.Length(), fs)
    ensures s.Has(FrameOf(CopySector(tape, fs, s, c).position, fs))
    ensures FrameOf(c.position, fs) == s.first && 0 <= c.position ==>
      CopySector(tape, fs, s, c).position == Bytes(s.last, fs)
  {
    var len := s.Length();
    SectorAudio(tape, fs, s);
    BytesMonotone(1, len, fs);
    FrameOfBytes(len, fs);
    FrameOfBytes(s.last, fs);
    assert ReadCount(|tape|, Bytes(s.first, fs), Bytes(len, fs)) == Bytes(len, fs);
    CopySectorCopies(tape, fs, s, c);
    if FrameOf(c.position, fs) == s.first && 0 <= c.position {
      FrameOfPastSector(c.position, s, fs);
    }
  }

  /** A copy the tape and the buffer have room for: the sector's bytes land at the write offset. */
  lemma {:induction false} CopySectorCopies(tape: seq<bv8>, fs: FrameSize, s: Sector, c: Cursor)
    requires 0 <= s.first <= s.last && Bytes(s.last + 1, fs) <= |tape|
    requires 0 <= c.written && c.toRead >= s.Length()
    requires 0 < Bytes(s.Length(), fs) == ReadCount(|tape|, Bytes(s.first, fs), Bytes(s.Length(), fs))
    requires c.written + Bytes(s.Length(), fs) <= |c.buf|
    ensures var r, n := CopySector(tape, fs, s, c), Bytes(s.Length(), fs);
            && r.written == c.written + n
            && r.buf == c.buf[..c.written] + FramesAudio(tape, fs, s.Frames()) + c.buf[c.written + n..]
            && r.toRead == c.toRead - FrameOf(n, fs)
            && r.position == if s.Has(FrameOf(c.position + n, fs)) then c.position + n else Bytes(s.last, fs)
  {
    SectorAudio(tape, fs, s);
    assert Max(Min(c.toRead, s.Length()), 0) == s.Length();
  }

  /** A cursor in the sector's first frame, moved by the sector's length in bytes, is past the sector. */
  lemma {:induction false} FrameOfPastSector(position: int, s: Sector, fs: FrameSize)
    requires 0 <= position && FrameOf(position, fs) == s.first <= s.last
    ensures !s.Has(FrameOf(position + Bytes(s.Length(), fs), fs))
  {
    FrameOfShift(position, s.Length(), fs);
  }

  /** The copy loop: stop when the sectors run out, no frames are wanted, or the cursor left the verse. */
  function CopySectors(tape: seq<bv8>, fs: FrameSize, v: Verse, ss: seq<Sector>, c: Cursor): (r: Cursor)
    requires forall i :: 0 <= i < |ss| ==> 0 <= ss[i].first
    requires 0 <= c.written <= |c.buf|
    ensures |r.buf| == |c.buf| && c.written <= r.written <= |c.buf|
    ensures r.buf[..c.written] == c.buf[..c.written] && r.buf[r.written..] == c.buf[r.written..]
  {
    if ss == [] || c.toRead <= 0 || !v.Contains(FrameOf(c.position, fs)) then c
    else
      var c' := CopySector(tape, fs, ss[0], c);
      var r := CopySectors(tape, fs, v, ss[1..], c');
      UnchangedOutside(c.buf, c'.buf, r.buf, c.written, c'.written, r.written);
      r
  }

  /** Two writes into adjacent windows leave the buffer unchanged outside their union. */
  lemma {:induction false} UnchangedOutside(a: seq<bv8>, b: seq<bv8>, c: seq<bv8>, w0: int, w1: int, w2: int)
    requires |a| == |b| == |c| && 0 <= w0 <= w1 <= w2 <= |a|
    requires b[..w0] == a[..w0] && b[w1..] == a[w1..]
    requires c[..w1] == b[..w1] && c[w2..] == b[w2..]
    ensures c[..w0] == a[..w0] && c[w2..] == a[w2..]
  {
    assert c[..w0] == c[..w1][..w0];
    assert b[..w0] == b[..w1][..w0];
    assert b[w2..] == b[w1..][w2 - w1..];
    assert a[w2..] == a[w1..][w2 - w1..];
  }

  /**
   * The result of a read: bytes delivered, the caller's buffer afterwards, the new
   * cursor, and whether the read went through the copy loop (only then does the
   * source go on to `adjustPositionToNextVerse`).
   */
  datatype Outcome = Outcome(count: int, buf: seq<bv8>, position: int, copied: bool)

  lemma {:induction false} SectorsFromStartOnTape(ss: seq<Sector>, f: int, n: int)
    requires WellFormedSectors(ss)
    ensures forall i :: 0 <= i < |SectorsFrom(ss, f, n)| ==> 0 <= SectorsFrom(ss, f, n)[i].first
  {
    var r := SectorsFrom(ss, f, n);
    forall i | 0 <= i < |r| ensures 0 <= r[i].first {
      SectorsFromInside(ss, f, n, i, r[i].first);
    }
  }

  /** Each sector `getSectorsFromOffset` returns starts on the tape and lies inside the verse. */
  lemma {:induction false} SectorsFromInside(ss: seq<Sector>, f: int, n: int, i: int, x: int)
    requires WellFormedSectors(ss)
    requires 0 <= i < |SectorsFrom(ss, f, n)|
    ensures 0 <= SectorsFrom(ss, f, n)[i].first
    ensures SectorsFrom(ss, f, n)[i].Has(x) ==> InSectors(ss, x)
  {
    if ss[0].Has(f) {
      var t := [Sector(f, ss[0].last)] + ss[1..];
      TakeFramesInside(t, n, i, x);
      if t[0].Has(x) {
        assert ss[0].Has(x);
      } else if InSectors(t[1..], x) {
        assert t[1..] == ss[1..];
      }
    } else {
      assert WellFormedSectors(ss[1..]) by {
        assert forall j :: 0 <= j < |ss| - 1 ==> ss[1..][j] == ss[j + 1];
      }
      SectorsFromInside(ss[1..], f, n, i, x);
    }
  }

  lemma {:induction false} TakeFramesInside(ss: seq<Sector>, n: int, i: int, x: int)
    requires 0 <= i < |TakeFrames(ss, n)|
    requires forall j :: 0 <= j < |ss| ==> 0 <= ss[j].first
    ensures 0 <= TakeFrames(ss, n)[i].first
    ensures TakeFrames(ss, n)[i].Has(x) ==> InSectors(ss, x)
  {
    if ss[0].Length() < n && i > 0 {
      TakeFramesInside(ss[1..], n - ss[0].Length(), i - 1, x);
    }
  }

  /**
   * `getPcmBufferVerse` once the file is open: nothing when the cursor is outside the
   * verse; when no whole frame fits in the buffer, or no sector is found, the cursor
   * snaps to the verse's last frame; otherwise the copy loop over the sectors from
   * the cursor on.
   */
  function ReadVerse(tape: seq<bv8>, fs: FrameSize, v: Verse, buf: seq<bv8>, position: int): (o: Outcome)
    requires WellFormedSectors(v.sectors)
    ensures |o.buf| == |buf| && 0 <= o.count <= |buf|
    ensures !v.Contains(FrameOf(position, fs)) ==> o == Outcome(0, buf, position, false)
  {
    var f := FrameOf(position, fs);
    if !v.Contains(f) then Outcome(0, buf, position, false)
    else
      var toRead := Min(FrameOf(|buf|, fs), v.Length());
      if toRead <= 0 then Outcome(0, buf, Bytes(v.LastFrame(), fs), false)
      else
        var ss := v.GetSectorsFromOffset(f, toRead);
        if ss == [] then Outcome(0, buf, Bytes(v.LastFrame(), fs), false)
        else
          SectorsFromStartOnTape(v.sectors, f, toRead);
          var c := CopySectors(tape, fs, v, ss, Cursor(0, position, toRead, buf));
          Outcome(c.written, c.buf, c.position, true)
  }

  /**
   * `adjustPositionToNextVerse`: on an unlocked connection whose cursor ended on the
   * verse's last frame, move it to the next active verse's first frame, unless the
   * verse is the last one.
   */
  function AdvanceAfterRead(active: seq<Verse>, vi: int, locked: bool, fs: FrameSize, position: int): (p: int)
    requires 0 <= vi < |active|
    ensures p != position ==> !locked && vi < |active| - 1 && p == Bytes(active[vi + 1].FirstFrame(), fs)
    ensures !locked && vi < |active| - 1 && FrameOf(position, fs) == active[vi].LastFrame() ==>
      p == Bytes(active[vi + 1].FirstFrame(), fs)
  {
    if FrameOf(position, fs) == active[vi].LastFrame() && !locked && vi != |active| - 1 then
      Bytes(active[vi + 1].FirstFrame(), fs)
    else position
  }

  /** `getPcmBufferVerse(bytes, activeVerses[vi])` once the file is open. */
  function PcmBufferVerse(tape: seq<bv8>, fs: FrameSize, active: seq<Verse>, vi: int, locked: bool,
                          buf: seq<bv8>, position: int): (o: Outcome)
    requires 0 <= vi < |active| && WellFormedSectors(active[vi].sectors)
    ensures |o.buf| == |buf| && 0 <= o.count <= |buf|
    ensures locked || !o.copied ==> o == ReadVerse(tape, fs, active[vi], buf, position)
  {
    var o := ReadVerse(tape, fs, active[vi], buf, position);
    if o.copied then o.(position := AdvanceAfterRead(active, vi, locked, fs, o.position)) else o
  }

  /** `getVerseToReadFrom`: the first active verse holding the cursor's frame, else the first active verse. */
  function VerseToReadFrom(active: seq<Verse>, frame: int): (vi: int)
    requires active != []
    ensures 0 <= vi < |active|
    ensures active[vi].Contains(frame) || (vi == 0 && !InChapter(active, frame))
  {
    FindVerseIffInChapter(active, frame);
    var k := FindVerse(active, frame);
    if k == |active| then 0 else k
  }

  /** The verse read from is the first one holding the frame. */
  lemma {:induction false} VerseToReadFromIsFirst(active: seq<Verse>, frame: int, j: int)
    requires active != [] && InChapter(active, frame)
    requires 0 <= j < VerseToReadFrom(active, frame)
    ensures !active[j].Contains(frame)
  {
    FindVerseIffInChapter(active, frame);
  }

  /** `hasRemaining()` of an open, unlocked connection on a chapter with frames. */
  function HasRemainingChapter(active: seq<Verse>, fs: FrameSize, position: int): (b: bool)
    ensures b <==> active != [] && InChapter(active, FrameOf(position, fs))
                   && FrameOf(position, fs) != active[|active| - 1].LastFrame()
  {
    var f := FrameOf(position, fs);
    FindVerseIffInChapter(active, f);
    active != [] && FindVerse(active, f) < |active| && f != active[|active| - 1].LastFrame()
  }

  // ---------------------------------------------------------------------------
  // What a read delivers

  /**
   * The copy loop can take every one of `ss` from cursor `c`: the sectors lie on the
   * tape and inside the verse, the request and the buffer have room for all of them,
   * and the cursor is inside the verse.
   */
  ghost predicate CopyFits(tape: seq<bv8>, fs: FrameSize, v: Verse, ss: seq<Sector>, c: Cursor) {
    && NonEmptySectors(ss) && Covers(tape, fs, ss)
    && (forall x :: InSectors(ss, x) ==> v.Contains(x))
    && 0 <= c.written <= |c.buf| && c.written + Bytes(SectorsLength(ss), fs) <= |c.buf|
    && c.toRead >= SectorsLength(ss)
    && v.Contains(FrameOf(c.position, fs))
  }

  /** From `c` to `r`, the audio of `ss` was written at the write offset and nothing else changed. */
  ghost predicate Delivered(tape: seq<bv8>, fs: FrameSize, ss: seq<Sector>, c: Cursor, r: Cursor) {
    && 0 <= c.written
    && |FramesAudio(tape, fs, SectorFrames(ss))| == Bytes(SectorsLength(ss), fs)
    && r.written == c.written + Bytes(SectorsLength(ss), fs) <= |c.buf|
    && r.buf == c.buf[..c.written] + FramesAudio(tape, fs, SectorFrames(ss)) + c.buf[r.written..]
  }

  /**
   * The copy loop over sectors that fit the buffer and the request, lie on the tape
   * and inside the verse: every sector is copied whole, in order.
   */
  lemma {:induction false} CopySectorsDelivers(tape: seq<bv8>, fs: FrameSize, v: Verse, ss: seq<Sector>, c: Cursor)
    requires CopyFits(tape, fs, v, ss, c)
    ensures Delivered(tape, fs, ss, c, CopySectors(tape, fs, v, ss, c))
    ensures v.Contains(FrameOf(CopySectors(tape, fs, v, ss, c).position, fs))
    decreases |ss|, 1
  {
    if ss == [] {
      assert c.buf == c.buf[..c.written] + c.buf[c.written..];
    } else if |ss| == 1 {
      CopyOnlySector(tape, fs, v, ss, c);
    } else {
      CopyManySectors(tape, fs, v, ss, c);
    }
  }

  /** The copy loop over several sectors that fit: the first is copied whole, then the rest. */
  lemma {:induction false} CopyManySectors(tape: seq<bv8>, fs: FrameSize, v: Verse, ss: seq<Sector>, c: Cursor)
    requires |ss| > 1 && CopyFits(tape, fs, v, ss, c)
    ensures Delivered(tape, fs, ss, c, CopySectors(tape, fs, v, ss, c))
    ensures v.Contains(FrameOf(CopySectors(tape, fs, v, ss, c).position, fs))
    decreases |ss|, 0
  {
    var c' := CopyFirstSector(tape, fs, v, ss, c);
    CopySectorsDelivers(tape, fs, v, ss[1..], c');
    SpliceSectors(tape, fs, ss, c, c', CopySectors(tape, fs, v, ss[1..], c'));
  }

  lemma {:induction false} CopyOnlySector(tape: seq<bv8>, fs: FrameSize, v: Verse, ss: seq<Sector>, c: Cursor)
    requires |ss| == 1 && CopyFits(tape, fs, v, ss, c)
    ensures Delivered(tape, fs, ss, c, CopySectors(tape, fs, v, ss, c))
    ensures v.Contains(FrameOf(CopySectors(tape, fs, v, ss, c).position, fs))
  {
    var c' := CopyFirstSector(tape, fs, v, ss, c);
    assert ss[..1] == ss && ss[1..] == [];
    assert CopySectors(tape, fs, v, ss[1..], c') == c';
  }

  /** The first sector's bytes followed by the rest's are the bytes of all the sectors. */
  lemma {:induction false} SpliceSectors(tape: seq<bv8>, fs: FrameSize, ss: seq<Sector>, c: Cursor, c': Cursor, r: Cursor)
    requires |ss| > 1 && |c'.buf| == |c.buf|
    requires Delivered(tape, fs, ss[..1], c, c')
    requires Delivered(tape, fs, ss[1..], c', r)
    requires c'.written + Bytes(SectorsLength(ss[1..]), fs) == c.written + Bytes(SectorsLength(ss), fs)
    ensures Delivered(tape, fs, ss, c, r)
  {
    var a := FramesAudio(tape, fs, SectorFrames(ss[..1]));
    var b := FramesAudio(tape, fs, SectorFrames(ss[1..]));
    assert ss == ss[..1] + ss[1..];
    SectorFramesAppend(ss[..1], ss[1..]);
    FramesAudioAppend(tape, fs, SectorFrames(ss[..1]), SectorFrames(ss[1..]));
    Splice(c.buf, c'.buf, r.buf, c.written, a, b);
  }

  /** One turn of the copy loop over sectors that fit: the first sector is copied whole and the loop goes on with the rest. */
  lemma {:induction false} CopyFirstSector(tape: seq<bv8>, fs: FrameSize, v: Verse, ss: seq<Sector>, c: Cursor)
    returns (c': Cursor)
    requires ss != [] && CopyFits(tape, fs, v, ss, c)
    ensures c' == CopySector(tape, fs, ss[0], c) && |c'.buf| == |c.buf|
    ensures CopySectors(tape, fs, v, ss, c) == CopySectors(tape, fs, v, ss[1..], c')
    ensures Delivered(tape, fs, ss[..1], c, c')
    ensures c'.written + Bytes(SectorsLength(ss[1..]), fs) == c.written + Bytes(SectorsLength(ss), fs)
    ensures CopyFits(tape, fs, v, ss[1..], c')
  {
    var s := ss[0];
    FramesLength(ss[1..]);
    BytesMonotone(0, SectorsLength(ss[1..]), fs);
    BytesAdd(s.Length(), SectorsLength(ss[1..]), fs);
    CopySectorWhole(tape, fs, s, c);
    c' := CopySector(tape, fs, s, c);
    HasInSectors(ss, 0, FrameOf(c'.position, fs));
    CoversTail(tape, fs, ss);
    assert ss[..1] == [s] && ss[..1][1..] == [];
    assert SectorFrames(ss[..1]) == s.Frames() + [] == s.Frames();
    assert SectorsLength(ss[..1]) == s.Length();
  }

  /** Writing `a` at `w` and then `b` right after it writes `a + b` at `w`. */
  lemma {:induction false} Splice(buf0: seq<bv8>, buf1: seq<bv8>, buf2: seq<bv8>, w: int, a: seq<bv8>, b: seq<bv8>)
    requires 0 <= w && w + |a| + |b| <= |buf0|
    requires buf1 == buf0[..w] + a + buf0[w + |a|..]
    requires buf2 == buf1[..w + |a|] + b + buf1[w + |a| + |b|..]
    ensures buf2 == buf0[..w] + (a + b) + buf0[w + |a| + |b|..]
  {
    assert buf1[..w + |a|] == buf0[..w] + a;
    assert buf1[w + |a| + |b|..] == buf0[w + |a| + |b|..];
  }

  /** The sectors a read visits lie on the tape and inside the verse. */
  lemma {:induction false} VisitedSectorsOnTape(tape: seq<bv8>, fs: FrameSize, v: Verse, f: int, n: int)
    requires WellFormedSectors(v.sectors) && Covers(tape, fs, v.sectors)
    requires n >= 0
    ensures NonEmptySectors(v.GetSectorsFromOffset(f, n)) && Covers(tape, fs, v.GetSectorsFromOffset(f, n))
    ensures forall x :: InSectors(v.GetSectorsFromOffset(f, n), x) ==> v.Contains(x)
  {
    var ss := v.GetSectorsFromOffset(f, n);
    SectorsFromReads(v.sectors, f, n);
    forall x | InSectors(ss, x) ensures v.Contains(x) {
      var i := SectorHolding(ss, x);
      SectorsFromInside(v.sectors, f, n, i, x);
    }
    forall i | 0 <= i < |ss| ensures 0 <= ss[i].first && Bytes(ss[i].last + 1, fs) <= |tape| {
      SectorsFromInside(v.sectors, f, n, i, ss[i].last);
      var j := SectorHolding(v.sectors, ss[i].last);
      BytesMonotone(ss[i].last + 1, v.sectors[j].last + 1, fs);
    }
  }

  /**
   * A read from a frame of the verse delivers the next frames of the verse's audio:
   * as many whole frames as the buffer holds and the verse has left from the
   * cursor's position in it, with the rest of the buffer untouched and the cursor
   * still inside the verse.
   */
  lemma {:induction false} ReadVerseDelivers(tape: seq<bv8>, fs: FrameSize, v: Verse, buf: seq<bv8>, position: int)
    requires WellFormedSectors(v.sectors) && Covers(tape, fs, v.sectors)
    requires v.Contains(FrameOf(position, fs))
    ensures 0 <= FrameOf(|buf|, fs)
    ensures var p := v.FramesToPosition(FrameOf(position, fs));
            0 <= p < v.Length() == |v.Frames()|
    ensures var o := ReadVerse(tape, fs, v, buf, position);
            var p := v.FramesToPosition(FrameOf(position, fs));
            var m := Min(FrameOf(|buf|, fs), v.Length() - p);
            && 0 <= Bytes(m, fs) <= |buf|
            && o.count == Bytes(m, fs)
            && o.buf == FramesAudio(tape, fs, v.Frames()[p .. p + m]) + buf[Bytes(m, fs)..]
            && v.Contains(FrameOf(o.position, fs))
  {
    var f := FrameOf(position, fs);
    assert NonEmptySectors(v.sectors);
    OffsetInLocates(v.sectors, f);
    FramesLength(v.sectors);
    var p := v.FramesToPosition(f);
    FrameOfNonNegative(|buf|, fs);
    var m := Min(FrameOf(|buf|, fs), v.Length() - p);
    WholeFramesFit(m, |buf|, fs);
    if FrameOf(|buf|, fs) == 0 {
      ReadVerseNoRoom(tape, fs, v, buf, position);
    } else {
      ReadVerseCopies(tape, fs, v, buf, position);
    }
  }

  /** A buffer too small for one frame: nothing is delivered and the cursor snaps to the verse's last frame. */
  lemma {:induction false} ReadVerseNoRoom(tape: seq<bv8>, fs: FrameSize, v: Verse, buf: seq<bv8>, position: int)
    requires WellFormedSectors(v.sectors)
    requires v.Contains(FrameOf(position, fs)) && FrameOf(|buf|, fs) == 0
    requires 0 <= v.FramesToPosition(FrameOf(position, fs)) < v.Length() == |v.Frames()|
    ensures var o := ReadVerse(tape, fs, v, buf, position);
            var p := v.FramesToPosition(FrameOf(position, fs));
            var m := Min(FrameOf(|buf|, fs), v.Length() - p);
            && 0 <= Bytes(m, fs) <= |buf|
            && o.count == Bytes(m, fs)
            && o.buf == FramesAudio(tape, fs, v.Frames()[p .. p + m]) + buf[Bytes(m, fs)..]
            && v.Contains(FrameOf(o.position, fs))
  {
    var p := v.FramesToPosition(FrameOf(position, fs));
    assert NonEmptySectors(v.sectors);
    LastFrameInVerse(v);
    FrameOfBytes(v.LastFrame(), fs);
    assert ReadVerse(tape, fs, v, buf, position) == Outcome(0, buf, Bytes(v.LastFrame(), fs), false);
    assert v.Frames()[p .. p + 0] == [];
    assert buf[0..] == buf;
  }

  lemma {:induction false} ReadVerseCopies(tape: seq<bv8>, fs: FrameSize, v: Verse, buf: seq<bv8>, position: int)
    requires WellFormedSectors(v.sectors) && Covers(tape, fs, v.sectors)
    requires v.Contains(FrameOf(position, fs)) && FrameOf(|buf|, fs) > 0
    requires 0 <= v.FramesToPosition(FrameOf(position, fs)) < v.Length() == |v.Frames()|
    ensures var o := ReadVerse(tape, fs, v, buf, position);
            var p := v.FramesToPosition(FrameOf(position, fs));
            var m := Min(FrameOf(|buf|, fs), v.Length() - p);
            && 0 <= Bytes(m, fs) <= |buf|
            && o.count == Bytes(m, fs)
            && o.buf == FramesAudio(tape, fs, v.Frames()[p .. p + m]) + buf[Bytes(m, fs)..]
            && v.Contains(FrameOf(o.position, fs))
  {
    var f := FrameOf(position, fs);
    var toRead := Min(FrameOf(|buf|, fs), v.Length());
    var ss := v.GetSectorsFromOffset(f, toRead);
    ReadVerseSectors(tape, fs, v, buf, position);
    var c := CopySectors(tape, fs, v, ss, Cursor(0, position, toRead, buf));
    CopySectorsDelivers(tape, fs, v, ss, Cursor(0, position, toRead, buf));
    SectorsFromStartOnTape(v.sectors, f, toRead);
    ReadVerseCopyBranch(tape, fs, v, buf, position);
    DeliveredFromStart(tape, fs, ss, Cursor(0, position, toRead, buf), c);
  }

  /** Delivery from the start of the buffer: the audio, then the rest of the buffer. */
  lemma {:induction false} DeliveredFromStart(tape: seq<bv8>, fs: FrameSize, ss: seq<Sector>, c: Cursor, r: Cursor)
    requires c.written == 0 && Delivered(tape, fs, ss, c, r)
    ensures r.written == Bytes(SectorsLength(ss), fs)
    ensures r.buf == FramesAudio(tape, fs, SectorFrames(ss)) + c.buf[r.written..]
  {
    assert c.buf[..0] == [];
  }

  /** A read with room for a frame, from a frame of the verse, over sectors it finds: the outcome of the copy loop. */
  lemma {:induction false} ReadVerseCopyBranch(tape: seq<bv8>, fs: FrameSize, v: Verse, buf: seq<bv8>, position: int)
    requires WellFormedSectors(v.sectors)
    requires v.Contains(FrameOf(position, fs)) && FrameOf(|buf|, fs) > 0
    requires var ss := v.GetSectorsFromOffset(FrameOf(position, fs), Min(FrameOf(|buf|, fs), v.Length()));
             ss != [] && forall i :: 0 <= i < |ss| ==> 0 <= ss[i].first
    ensures var toRead := Min(FrameOf(|buf|, fs), v.Length());
            var c := CopySectors(tape, fs, v, v.GetSectorsFromOffset(FrameOf(position, fs), toRead), Cursor(0, position, toRead, buf));
            ReadVerse(tape, fs, v, buf, position) == Outcome(c.written, c.buf, c.position, true)
  {
    assert NonEmptySectors(v.sectors);
    FramesLength(v.sectors);
  }

  /** The sectors a read from a frame of the verse visits: the next frames of the verse, and the copy loop can take them all. */
  lemma {:induction false} ReadVerseSectors(tape: seq<bv8>, fs: FrameSize, v: Verse, buf: seq<bv8>, position: int)
    requires WellFormedSectors(v.sectors) && Covers(tape, fs, v.sectors)
    requires v.Contains(FrameOf(position, fs)) && FrameOf(|buf|, fs) > 0
    requires 0 <= v.FramesToPosition(FrameOf(position, fs)) < v.Length() == |v.Frames()|
    ensures var toRead := Min(FrameOf(|buf|, fs), v.Length());
            var ss := v.GetSectorsFromOffset(FrameOf(position, fs), toRead);
            var p := v.FramesToPosition(FrameOf(position, fs));
            var m := Min(FrameOf(|buf|, fs), v.Length() - p);
            && ss != []
            && CopyFits(tape, fs, v, ss, Cursor(0, position, toRead, buf))
            && SectorFrames(ss) == v.Frames()[p .. p + m]
            && SectorsLength(ss) == m
            && 0 <= Bytes(m, fs) <= |buf|
  {
    var f := FrameOf(position, fs);
    var p := v.FramesToPosition(f);
    var m := Min(FrameOf(|buf|, fs), v.Length() - p);
    var toRead := Min(FrameOf(|buf|, fs), v.Length());
    WholeFramesFit(m, |buf|, fs);
    var ss := v.GetSectorsFromOffset(f, toRead);
    assert NonEmptySectors(v.sectors);
    SectorsFromReads(v.sectors, f, toRead);
    SectorsFromBounded(v, f, toRead);
    VisitedSectorsOnTape(tape, fs, v, f, toRead);
    FramesLength(ss);
    assert m == Min(toRead, v.Length() - p);
  }

  /**
   * Within one sector, the cursor after a read ends on the last frame delivered, not
   * on the one after it: reading a one-sector verse from its first frame with room for `n` frames,
   * fewer than the verse has, leaves the cursor on frame `first + n - 1`, the last
   * frame the read delivered, so the next read delivers that frame again.
   */
  lemma {:induction false} ReadEndsOnLastFrameDelivered(tape: seq<bv8>, fs: FrameSize, v: Verse, buf: seq<bv8>)
    requires |v.sectors| == 1 && 0 <= v.sectors[0].first <= v.sectors[0].last
    requires Bytes(v.sectors[0].last + 1, fs) <= |tape|
    requires 0 < FrameOf(|buf|, fs) < v.Length()
    ensures var o := ReadVerse(tape, fs, v, buf, Bytes(v.FirstFrame(), fs));
            && o.count == Bytes(FrameOf(|buf|, fs), fs)
            && o.position == Bytes(v.FirstFrame() + FrameOf(|buf|, fs) - 1, fs)
            && v.Contains(FrameOf(o.position, fs))
            && v.FirstFrame() + FrameOf(|buf|, fs) - 1 != v.LastFrame()
  {
    var s := v.sectors[0];
    var n := FrameOf(|buf|, fs);
    var position := Bytes(s.first, fs);
    FrameOfBytes(s.first, fs);
    BytesMonotone(0, s.first, fs);
    assert v.sectors[1..] == [];
    assert v.Contains(s.first);
    assert SectorsLength(v.sectors[1..]) == 0;
    assert v.Length() == s.Length();
    var clipped := Sector(s.first, s.first + n - 1);
    assert v.GetSectorsFromOffset(s.first, n) == [clipped] by {
      assert [Sector(s.first, s.last)] + v.sectors[1..] == [s];
    }
    FrameOfNonNegative(|buf|, fs);
    WholeFramesFit(n, |buf|, fs);
    BytesMonotone(clipped.last + 1, s.last + 1, fs);
    var c := Cursor(0, position, n, buf);
    CopySectorWhole(tape, fs, clipped, c);
    var c' := CopySector(tape, fs, clipped, c);
    assert CopySectors(tape, fs, v, [clipped], c) == CopySectors(tape, fs, v, [], c');
    FrameOfBytes(clipped.last, fs);
  }

  // ---------------------------------------------------------------------------
  // Draining a chapter through a reader, as trimming does

  /**
   * The bytes `trimScratchAudio` writes: while the unlocked reader has frames
   * remaining, read a buffer from the verse holding the cursor and write the bytes
   * the read reports. `fuel` bounds the number of reads.
   */
  function Drain(tape: seq<bv8>, fs: FrameSize, active: seq<Verse>, buf: seq<bv8>, position: int, fuel: nat): (out: seq<bv8>)
    requires AllWellFormed(active)
    ensures |out| <= fuel * |buf|
    ensures !HasRemainingChapter(active, fs, position) ==> out == []
    decreases fuel
  {
    if fuel == 0 || SumLengths(active) == 0 || !HasRemainingChapter(active, fs, position) then []
    else
      var vi := VerseToReadFrom(active, FrameOf(position, fs));
      var o := PcmBufferVerse(tape, fs, active, vi, false, buf, position);
      var rest := Drain(tape, fs, active, o.buf, o.position, fuel - 1);
      ReadsAddUp(o.count, |rest|, fuel, |buf|);
      o.buf[..o.count] + rest
  }

  /** One read of at most `n` bytes before `fuel - 1` more of at most `n` each. */
  lemma {:induction false} ReadsAddUp(a: int, b: int, fuel: int, n: int)
    requires a <= n && b <= (fuel - 1) * n
    ensures a + b <= fuel * n
  {
    assert fuel * n == (fuel - 1) * n + n;
  }

  /** A verse recorded at tape frames 0..2. */
  const SampleVerse: Verse := Verse(true, VerseMarker(1, 1, 0), [Sector(0, 2)])

  /** The sample chapter: the one verse, one byte per frame. */
  const SampleChapter: seq<Verse> := [SampleVerse]
  const OneByte: FrameSize := 1

  lemma {:induction false} SampleChapterWellFormed()
    ensures AllWellFormed(SampleChapter)
  {
    assert SampleChapter[0].WellFormed();
  }

  /** With one byte per frame, a cursor's byte offset is its frame. */
  lemma {:induction false} OneByteFrames(k: int)
    ensures Bytes(k, 1) == k && FrameOf(k, 1) == k
  {
  }

  /** A two-byte read of the sample verse from frame `k` delivers frames `k` and `k + 1` and leaves the cursor on `k + 1`. */
  lemma {:induction false} SampleRead(tape: seq<bv8>, k: int, buf: seq<bv8>)
    requires |tape| == 3 && 0 <= k <= 1 && |buf| == 2
    ensures ReadVerse(tape, 1, SampleVerse, buf, k) == Outcome(2, tape[k .. k + 2], k + 1, true)
  {
    var v := SampleVerse;
    OneByteFrames(k);
    OneByteFrames(k + 1);
    OneByteFrames(2);
    OneByteFrames(3);
    assert v.sectors[1..] == [];
    assert SectorsLength(v.sectors[1..]) == 0;
    assert v.Length() == 3;
    assert v.Contains(k);
    var s := Sector(k, k + 1);
    assert v.GetSectorsFromOffset(k, 2) == [s] by {
      assert [Sector(k, 2)] + v.sectors[1..] == [Sector(k, 2)];
    }
    var c := Cursor(0, k, 2, buf);
    assert ReadCount(3, k, 2) == 2;
    var c' := CopySector(tape, 1, s, c);
    assert c' == Cursor(2, k + 1, 0, tape[k .. k + 2]) by {
      assert buf[..0] + tape[k .. k + 2] + buf[2..] == tape[k .. k + 2];
    }
    assert CopySectors(tape, 1, v, [s], c) == CopySectors(tape, 1, v, [], c');
  }

  /** A verse recorded at tape frames 0..9 and 11..15: frame 10 between its sectors belongs to no verse. */
  const GapVerse: Verse := Verse(true, VerseMarker(1, 1, 0), [Sector(0, 9), Sector(11, 15)])

  /**
   * A read across the gap between two sectors: all fifteen frames of the verse are
   * delivered, but the cursor, pulled back to frame 9 at the end of the first sector
   * and then moved by the five bytes of the second, ends on frame 14. That is inside
   * the verse and short of its last frame 15, so the read does not move on to the
   * next verse and the next read starts again from frame 14.
   */
  lemma {:induction false} GapReadStopsShort(tape: seq<bv8>, buf: seq<bv8>)
    requires |tape| == 16 && |buf| == 15
    ensures WellFormedSectors(GapVerse.sectors)
    ensures ReadVerse(tape, 1, GapVerse, buf, 0) == Outcome(15, tape[..10] + tape[11..], 14, true)
    ensures GapVerse.Contains(14) && GapVerse.LastFrame() == 15 && GapVerse.Length() == 15
  {
    var v := GapVerse;
    assert v.sectors[1..] == [Sector(11, 15)] && v.sectors[1..][1..] == [];
    assert v.Length() == 15;
    assert v.Contains(0) && v.Contains(9) && v.Contains(14);
    OneByteFrames(0);
    OneByteFrames(9);
    OneByteFrames(15);
    var s0, s1 := Sector(0, 9), Sector(11, 15);
    assert v.GetSectorsFromOffset(0, 15) == [s0, s1] by {
      assert [Sector(0, 9)] + v.sectors[1..] == [s0, s1];
      assert [s0, s1][1..] == [s1];
    }
    var c0 := Cursor(0, 0, 15, buf);
    var c1 := GapFirstSector(tape, buf);
    var c2 := GapSecondSector(tape, c1);
    assert [s0, s1][1..] == [s1] && [s1][1..] == [];
    assert CopySectors(tape, 1, v, [s0, s1], c0) == CopySectors(tape, 1, v, [s1], c1);
    assert CopySectors(tape, 1, v, [s1], c1) == CopySectors(tape, 1, v, [], c2);
  }

  /** The gap read's first pass: frames 0..9 are copied and the cursor, past the sector, is pulled back to frame 9. */
  lemma {:induction false} GapFirstSector(tape: seq<bv8>, buf: seq<bv8>) returns (c: Cursor)
    requires |tape| == 16 && |buf| == 15
    ensures c == CopySector(tape, 1, Sector(0, 9), Cursor(0, 0, 15, buf))
    ensures c == Cursor(10, 9, 5, tape[..10] + buf[10..])
  {
    OneByteFrames(9);
    OneByteFrames(10);
    assert ReadCount(16, 0, 10) == 10;
    assert buf[..0] + tape[0 .. 10] + buf[10..] == tape[..10] + buf[10..];
    c := CopySector(tape, 1, Sector(0, 9), Cursor(0, 0, 15, buf));
  }

  /** The gap read's second pass: frames 11..15 are copied and the cursor moves five bytes, from frame 9 to frame 14. */
  lemma {:induction false} GapSecondSector(tape: seq<bv8>, c1: Cursor) returns (c: Cursor)
    requires |tape| == 16 && |c1.buf| == 15 && c1.written == 10 && c1.position == 9 && c1.toRead == 5
    ensures c == CopySector(tape, 1, Sector(11, 15), c1)
    ensures c == Cursor(15, 14, 0, c1.buf[..10] + tape[11..])
  {
    OneByteFrames(11);
    OneByteFrames(14);
    assert ReadCount(16, 11, 5) == 5;
    assert c1.buf[..10] + tape[11 .. 16] + c1.buf[15..] == c1.buf[..10] + tape[11..];
    c := CopySector(tape, 1, Sector(11, 15), c1);
  }

  /** What a turn of the trimming loop on the sample chapter starts from: a cursor on frame 0 or 1, a two-byte buffer and turns left. */
  predicate SampleTurn(tape: seq<bv8>, k: int, buf: seq<bv8>, fuel: nat) {
    |tape| == 3 && 0 <= k <= 1 && |buf| == 2 && fuel > 0
  }

  /** One turn of the trimming loop on the sample verse from frame `k`: it writes frames `k` and `k + 1` and moves to `k + 1`. */
  lemma {:induction false} SampleDrainStep(tape: seq<bv8>, k: int, buf: seq<bv8>, fuel: nat) returns (next: seq<bv8>)
    requires SampleTurn(tape, k, buf, fuel)
    ensures AllWellFormed(SampleChapter)
    ensures next == tape[k .. k + 2] && |next| == 2
    ensures Drain(tape, OneByte, SampleChapter, buf, k, fuel)
         == next + Drain(tape, OneByte, SampleChapter, next, k + 1, fuel - 1)
  {
    SampleChapterWellFormed();
    next := tape[k .. k + 2];
    var active := SampleChapter;
    OneByteFrames(k);
    assert SampleVerse.sectors[1..] == [];
    assert SectorsLength(SampleVerse.sectors[1..]) == 0;
    assert active[1..] == [];
    assert SumLengths(active) == 3;
    assert SampleVerse.Contains(k) && InChapter(active, k);
    assert HasRemainingChapter(active, 1, k);
    assert VerseToReadFrom(active, k) == 0;
    SampleRead(tape, k, buf);
    assert PcmBufferVerse(tape, 1, active, 0, false, buf, k) == Outcome(2, next, k + 1, true);
  }

  /** Draining stops once the cursor is on the chapter's last frame. */
  lemma {:induction false} SampleDrainEnd(tape: seq<bv8>, buf: seq<bv8>, fuel: nat)
    ensures AllWellFormed(SampleChapter)
    ensures Drain(tape, OneByte, SampleChapter, buf, 2, fuel) == []
  {
    SampleChapterWellFormed();
    OneByteFrames(2);
    assert SampleVerse.sectors[1..] == [] && SampleChapter[1..] == [];
    assert SampleVerse.Contains(2) && SampleVerse.LastFrame() == 2;
    assert !HasRemainingChapter(SampleChapter, 1, 2);
  }

  /** From frame 1 the trimming loop writes frames 1 and 2 and stops. */
  lemma {:induction false} SampleDrainLast(tape: seq<bv8>, buf: seq<bv8>, fuel: nat)
    requires SampleTurn(tape, 1, buf, fuel)
    ensures AllWellFormed(SampleChapter)
    ensures Drain(tape, OneByte, SampleChapter, buf, 1, fuel) == tape[1..3]
  {
    var b := SampleDrainStep(tape, 1, buf, fuel);
    SampleDrainEnd(tape, b, fuel - 1);
    assert b + [] == b;
  }

  /**
   * Draining a three-frame verse recorded at tape frames 0..2 (one byte per frame)
   * through a two-byte buffer writes frames 0, 1, then 1, 2: four bytes where the
   * verse has three, so the new tape no longer matches the sectors trimming then
   * assigns (compare `SampleCleanTape`, which holds the three frames once).
   */
  lemma {:induction false} DrainRepeatsFrames(tape: seq<bv8>, buf: seq<bv8>, fuel: nat)
    requires SampleTurn(tape, 0, buf, fuel) && SampleTurn(tape, 1, buf, fuel - 1)
    ensures AllWellFormed(SampleChapter)
    ensures Drain(tape, OneByte, SampleChapter, buf, 0, fuel) == tape[0..2] + tape[1..3]
  {
    var b := SampleDrainStep(tape, 0, buf, fuel);
    SampleDrainLast(tape, b, fuel - 1);
  }

  /** The compacted tape of the sample chapter is the three recorded frames, once each. */
  lemma {:induction false} SampleCleanTape(tape: seq<bv8>)
    requires |tape| == 3
    ensures CleanTape(tape, OneByte, SampleChapter) == tape
  {
    OneByteFrames(0);
    OneByteFrames(3);
    assert SectorBytes(tape, 1, Sector(0, 2)) == tape[0..3] == tape;
    assert SampleVerse.sectors[1..] == [] && [SampleVerse][1..] == [];
    assert SectorsBytes(tape, 1, SampleVerse.sectors) == tape + [];
    assert CleanTape(tape, 1, SampleChapter) == SectorsBytes(tape, 1, SampleVerse.sectors) + [];
  }
}
