/**
 * The chapter representation as the narration screen holds it: the verse slots,
 * the scratch tape they point into, and the reader connections handed out over
 * that tape.
 *
 * `ChapterRepresentation` owns the slot list (`totalVerses`), the tape bytes and
 * the registry of open connections; its methods change them in place, as the
 * source does. Each `ChapterRepresentationConnection` keeps a byte cursor, an
 * optional lock to one active verse and whether its file is open, and reads the
 * tape through the functions of `ScratchTape`.
 */
module Narration {
  import opened Wrappers
  import opened Markers
  import opened VerseNodes
  import opened Chapter
  import opened ScratchTape

  /** `CHAPTER_UNLOCKED`: the lock value of a connection that reads the whole chapter. */
  const ChapterUnlocked: int := -1

  /** `list.remove(x)`: the list without the first occurrence of `x`. */
  function RemoveFirst<T(==)>(s: seq<T>, x: T): (r: seq<T>)
    ensures x !in s ==> r == s
    ensures x in s ==> |r| == |s| - 1
    ensures forall y :: y in r ==> y in s
  {
    if s == [] then []
    else if s[0] == x then s[1..]
    else [s[0]] + RemoveFirst(s[1..], x)
  }

  /** No element occurs twice. */
  ghost predicate Distinct<T>(s: seq<T>) {
    forall i, j :: 0 <= i < j < |s| ==> s[i] != s[j]
  }

  /** Removing an element from a list without repeats leaves no copy of it, keeps the others, and keeps the list free of repeats. */
  lemma {:induction false} RemoveFirstDistinct<T>(s: seq<T>, x: T)
    requires Distinct(s)
    ensures x !in RemoveFirst(s, x)
    ensures Distinct(RemoveFirst(s, x))
    ensures forall y :: y in RemoveFirst(s, x) <==> y in s && y != x
  {
    if s != [] {
      var rest := s[1..];
      assert Distinct(rest) by {
        forall i, j | 0 <= i < j < |rest| ensures rest[i] != rest[j] {
          assert rest[i] == s[i + 1] && rest[j] == s[j + 1];
        }
      }
      assert s[0] !in rest by {
        forall i | 0 <= i < |rest| ensures rest[i] != s[0] {
          assert rest[i] == s[i + 1];
        }
      }
      assert s == [s[0]] + rest;
      if s[0] != x {
        RemoveFirstDistinct(rest, x);
        ConsDistinct(s[0], RemoveFirst(rest, x));
      }
    }
  }

  /** An element in front of a list without repeats that does not hold it. */
  lemma {:induction false} ConsDistinct<T>(a: T, r: seq<T>)
    requires Distinct(r) && a !in r
    ensures Distinct([a] + r)
  {
    var t := [a] + r;
    forall i, j | 0 <= i < j < |t| ensures t[i] != t[j] {
      assert t[j] == r[j - 1];
      if i > 0 {
        assert t[i] == r[i - 1];
      }
    }
  }

  class ChapterRepresentation {
    /** The verse slots, in slot order. */
    var totalVerses: seq<Verse>
    /** The scratch tape: every byte ever recorded for the chapter, stale or not. */
    var tape: seq<bv8>
    /** `frameSizeInBytes`. */
    const frameSize: FrameSize
    /** `openReaderConnections`. */
    var connections: seq<ChapterRepresentationConnection>

    /** Every slot well formed, every placed slot holding audio, and every sector on the tape. */
    ghost predicate Valid()
      reads this
    {
      AllWellFormed(totalVerses) && AllRecorded(totalVerses) && CoversVerses(tape, frameSize, totalVerses)
    }

    /** The registry lists each connection once, and only connections of this chapter. */
    ghost predicate Registry()
      reads this
    {
      Distinct(connections) && forall c :: c in connections ==> c.owner == this
    }

    /** `scratchAudio.totalFrames`: the whole frames on the tape. */
    function TapeFrames(): (n: int)
      reads this
      ensures 0 <= n && Bytes(n, frameSize) <= |tape| < Bytes(n + 1, frameSize)
    {
      FrameOfBrackets(|tape|, frameSize);
      FrameOf(|tape|, frameSize)
    }

    /**
     * A new chapter: one unplaced slot per verse of the chapter's first chunk list,
     * behind the chapter title (and the book title in chapter 1), over the scratch
     * tape as it stands, with no connection open.
     */
    constructor (chunks: seq<(int, int)>, chapterSort: int, bookSlug: string, fs: FrameSize, scratch: seq<bv8>)
      ensures totalVerses == InitialVerses(chunks, chapterSort, bookSlug)
      ensures tape == scratch && frameSize == fs && connections == []
      ensures ActiveVerses(totalVerses) == [] && TotalFrames(totalVerses) == 0
      ensures Valid() && Registry()
    {
      totalVerses := InitialVerses(chunks, chapterSort, bookSlug);
      tape := scratch;
      frameSize := fs;
      connections := [];
      new;
      NoActiveVerses(totalVerses);
      EmptySlotsValid(totalVerses, tape, frameSize);
    }

    /**
     * `loadFromSerializedVerses`: `nodes` is what the verses file decodes to, or
     * `None` when decoding fails (nothing changes then). Every slot is cleared, then
     * slot `i` takes the `i`-th decoded node when there is one.
     */
    method LoadFromSerializedVerses(nodes: Option<seq<Verse>>)
      modifies this
      ensures nodes.None? ==> totalVerses == old(totalVerses)
      ensures nodes.Some? ==> totalVerses == LoadedVerses(old(totalVerses), nodes.value)
      ensures tape == old(tape) && connections == old(connections)
      ensures nodes.Some? ==>
                AllWellFormed(nodes.value) && AllRecorded(nodes.value) && CoversVerses(tape, frameSize, nodes.value) ==> Valid()
    {
      if nodes.None? {
        return;
      }
      var decoded := nodes.value;
      var i := 0;
      while i < |totalVerses|
        invariant 0 <= i <= |totalVerses| == |old(totalVerses)|
        invariant forall j :: 0 <= j < |totalVerses| ==>
                    totalVerses[j] == if j < i then Verse(false, old(totalVerses)[j].marker, []) else old(totalVerses)[j]
        invariant tape == old(tape) && connections == old(connections)
      {
        totalVerses := totalVerses[i := Verse(false, totalVerses[i].marker, [])];
        i := i + 1;
      }
      i := 0;
      while i < |totalVerses|
        invariant 0 <= i <= |totalVerses| == |old(totalVerses)|
        invariant forall j :: 0 <= j < |totalVerses| ==>
                    totalVerses[j] == if j < i then LoadedVerses(old(totalVerses), decoded)[j]
                                      else Verse(false, old(totalVerses)[j].marker, [])
        invariant tape == old(tape) && connections == old(connections)
      {
        if i < |decoded| {
          totalVerses := totalVerses[i := decoded[i]];
        }
        i := i + 1;
      }
      assert totalVerses == LoadedVerses(old(totalVerses), decoded);
      if AllWellFormed(decoded) && AllRecorded(decoded) && CoversVerses(tape, frameSize, decoded) {
        forall j | 0 <= j < |totalVerses|
          ensures totalVerses[j].WellFormed() && totalVerses[j].Recorded() && Covers(tape, frameSize, totalVerses[j].sectors)
        {
        }
      }
    }

    /**
     * `onVersesUpdated`: `updateTotalVerses`, then the markers published to the
     * screen, each active verse's marker moved to the verse's location in the
     * chapter. Writing the verses file is not part of this model.
     */
    method OnVersesUpdated() returns (published: seq<Marker>)
      modifies this
      ensures totalVerses == UpdatedVerses(old(totalVerses))
      ensures published == PublishedMarkers(ActiveVerses(totalVerses))
      ensures tape == old(tape) && connections == old(connections)
      ensures old(Valid()) && PlacedPrefix(old(totalVerses)) ==> Valid()
      ensures AllWellFormed(old(totalVerses)) ==> AllWellFormed(totalVerses)
    {
      UpdateTotalVerses();
      published := PublishedMarkers(ActiveVerses(totalVerses));
    }

    /**
     * `updateTotalVerses`, as written: the `idx`-th active verse is written to slot
     * `idx`, with its marker moved to where its first frame lies in the chapter and
     * with the sectors slot `idx` already had.
     */
    method UpdateTotalVerses()
      modifies this
      ensures totalVerses == UpdatedVerses(old(totalVerses))
      ensures tape == old(tape) && connections == old(connections)
      ensures old(Valid()) && PlacedPrefix(old(totalVerses)) ==> Valid()
      ensures AllWellFormed(old(totalVerses)) ==> AllWellFormed(totalVerses)
    {
      var active := ActiveVerses(totalVerses);
      var idx := 0;
      while idx < |active|
        invariant 0 <= idx <= |active| <= |totalVerses| == |old(totalVerses)|
        invariant UpdateFrom(totalVerses, active, idx) == UpdatedVerses(old(totalVerses))
        invariant tape == old(tape) && connections == old(connections)
      {
        var newLoc := LocationInChapter(ActiveVerses(totalVerses), active[idx].FirstFrame());
        var updatedMarker := active[idx].CopyMarker(newLoc);
        totalVerses := totalVerses[idx := Verse(true, updatedMarker, totalVerses[idx].sectors)];
        idx := idx + 1;
      }
      if old(Valid()) && PlacedPrefix(old(totalVerses)) {
        UpdatedKeepsValid(old(totalVerses), tape, frameSize);
      }
      if AllWellFormed(old(totalVerses)) {
        UpdatedVersesLocations(old(totalVerses));
      }
    }

    /**
     * `finalizeVerse`: `end` is the tape's length in frames once the recorder has
     * appended `recorded`; `edited` is the slot list the narration history leaves
     * after finalizing the verse at `end` (`None` without a history). The slots are
     * then updated and republished. `verseIndex` is not used, as in the source.
     */
    method FinalizeVerse(verseIndex: int, recorded: seq<bv8>, edited: Option<seq<Verse>>) returns (end: int, published: seq<Marker>)
      modifies this
      ensures tape == old(tape) + recorded
      ensures end == TapeFrames()
      ensures totalVerses == UpdatedVerses(if edited.Some? then edited.value else old(totalVerses))
      ensures published == PublishedMarkers(ActiveVerses(totalVerses))
      ensures connections == old(connections)
      ensures AllWellFormed(if edited.Some? then edited.value else old(totalVerses)) ==> AllWellFormed(totalVerses)
    {
      tape := tape + recorded;
      end := TapeFrames();
      if edited.Some? {
        totalVerses := edited.value;
      }
      published := OnVersesUpdated();
    }

    /**
     * `audioLocationToLocationInChapter`: find the first active verse holding the
     * frame, add up the lengths of the active verses before it, then add the frame's
     * position inside it; 0 when no active verse holds the frame.
     */
    method AudioLocationToLocationInChapter(absoluteFrame: int) returns (rel: int)
      ensures rel == LocationInChapter(ActiveVerses(totalVerses), absoluteFrame)
    {
      var verses := ActiveVerses(totalVerses);
      var index := FindVerse(verses, absoluteFrame);
      if index == |verses| {
        return 0;
      }
      rel := 0;
      var idx := 0;
      while idx < index
        invariant 0 <= idx <= index
        invariant rel == SumLengths(verses[..idx])
      {
        PrefixSumStep(verses, idx);
        rel := rel + verses[idx].Length();
        idx := idx + 1;
      }
      rel := rel + verses[index].FramesToPosition(absoluteFrame);
    }

    /**
     * `relativeChapterToAbsolute`: walk the sectors of the active verses, counting
     * down `relativeIdx + 1` frames, and return the frame where the count runs out;
     * the edge cases (no active verse, an index at or before the start, an index past
     * the end) are as `RelativeToAbsolute` states them.
     */
    method RelativeChapterToAbsolute(relativeIdx: int) returns (abs: int)
      requires AllWellFormed(totalVerses)
      ensures abs == RelativeToAbsolute(ActiveVerses(totalVerses), TapeFrames(), relativeIdx)
    {
      var remaining := relativeIdx + 1;
      var verses := ActiveVerses(totalVerses);
      if relativeIdx <= 0 && verses == [] {
        return if TapeFrames() == 0 then 0 else TapeFrames() + 1;
      }
      if relativeIdx <= 0 {
        return verses[0].FirstFrame();
      }
      AllWellFormedNonEmpty(totalVerses);
      var vi := 0;
      while vi < |verses|
        invariant 0 <= vi <= |verses|
        invariant remaining == relativeIdx + 1 - |ChapterFrames(verses[..vi])| >= 1
      {
        var ss := verses[vi].sectors;
        var si := 0;
        while si < |ss|
          invariant 0 <= si <= |ss|
          invariant remaining == relativeIdx + 1 - |ChapterFrames(verses[..vi])| - |SectorFrames(ss[..si])| >= 1
        {
          var sector := ss[si];
          SectorPrefixStep(ss, si);
          if sector.Length() < remaining {
            remaining := remaining - sector.Length();
          } else {
            CursorHit(verses, TapeFrames(), vi, si, remaining, relativeIdx);
            if sector.Length() == remaining {
              abs := sector.last;
            } else {
              abs := sector.first + remaining - 1;
            }
            return;
          }
          si := si + 1;
        }
        assert ss[..si] == ss;
        ChapterPrefixStep(verses, vi);
        vi := vi + 1;
      }
      assert verses[..vi] == verses;
      RelativePastEnd(verses, TapeFrames(), relativeIdx);
      return if verses != [] then verses[|verses| - 1].LastFrame() else TapeFrames();
    }

    /**
     * `trim`: the tape is compacted to the active verses' audio, verse after verse
     * (the bytes `trimScratchAudio` is meant to write), and then every active verse
     * is given the one sector where its audio now lies.
     */
    method Trim()
      requires Valid()
      modifies this
      ensures tape == CleanTape(old(tape), frameSize, ActiveVerses(old(totalVerses)))
      ensures totalVerses == TrimFrom(old(totalVerses), 0)
      ensures Valid()
      ensures TotalFrames(totalVerses) == TotalFrames(old(totalVerses))
      ensures DistinctFrames(ActiveVerses(totalVerses))
      ensures FramesAudio(tape, frameSize, ChapterFrames(ActiveVerses(totalVerses)))
           == FramesAudio(old(tape), frameSize, ChapterFrames(ActiveVerses(old(totalVerses))))
      ensures connections == old(connections)
    {
      AllWellFormedNonEmpty(totalVerses);
      CoversActive(tape, frameSize, totalVerses);
      TrimPreservesAudio(tape, frameSize, totalVerses);
      tape := CleanTape(tape, frameSize, ActiveVerses(totalVerses));
      TrimActiveVerses();
      TrimKeepsTotal(old(totalVerses), 0);
      TrimKeepsWellFormed(old(totalVerses), 0);
      TrimmedCovered(tape, frameSize, old(totalVerses));
      TrimmedFramesDistinct(old(totalVerses), 0);
    }

    /** `trimActiveVerses`: each active verse in turn gets the single sector `[start, start + length - 1]`, and `start` moves past it. */
    method TrimActiveVerses()
      modifies this
      ensures totalVerses == TrimFrom(old(totalVerses), 0)
      ensures tape == old(tape) && connections == old(connections)
    {
      var start := 0;
      var i := 0;
      while i < |totalVerses|
        invariant 0 <= i <= |totalVerses| == |old(totalVerses)|
        invariant start == TotalFrames(old(totalVerses)[..i])
        invariant forall j :: 0 <= j < |totalVerses| ==>
                    totalVerses[j] == if j < i then TrimFrom(old(totalVerses), 0)[j] else old(totalVerses)[j]
        invariant tape == old(tape) && connections == old(connections)
      {
        TrimFromSlot(old(totalVerses), 0, i);
        TotalFramesPrefixStep(old(totalVerses), i);
        var verse := totalVerses[i];
        if verse.placed {
          var end := start + verse.Length() - 1;
          totalVerses := totalVerses[i := verse.(sectors := [Sector(start, end)])];
          start := end + 1;
        }
        i := i + 1;
      }
    }

    /** `getAudioFileReader(start, end)`: a new connection, registered at the end of the list. */
    method GetAudioFileReader(start: Option<int>, end: Option<int>) returns (c: ChapterRepresentationConnection)
      modifies this
      ensures fresh(c) && c.owner == this && connections == old(connections) + [c]
      ensures c.position == (if start.Some? then Bytes(start.value, frameSize) else 0)
      ensures c.lock == ChapterUnlocked && !c.isOpen
      ensures totalVerses == old(totalVerses) && tape == old(tape)
      ensures old(Registry()) ==> Registry()
    {
      c := new ChapterRepresentationConnection(this, start, end);
      connections := connections + [c];
      if old(Registry()) {
        ConsDistinctEnd(old(connections), c);
      }
    }

    /** `closeConnections`: every registered connection is closed and released, which empties the registry. */
    method CloseConnections()
      requires Registry()
      modifies this, set c | c in connections
      ensures connections == [] && Registry()
      ensures forall c :: c in old(connections) ==> !c.isOpen
      ensures totalVerses == old(totalVerses) && tape == old(tape)
    {
      var temp := connections;
      var i := 0;
      while i < |temp|
        invariant 0 <= i <= |temp|
        invariant connections == temp[i..] && Registry()
        invariant forall j :: 0 <= j < i ==> !temp[j].isOpen
        invariant totalVerses == old(totalVerses) && tape == old(tape)
      {
        var c := temp[i];
        assert c in connections;
        assert temp[i..] == [c] + temp[i + 1..];
        c.Close();
        assert connections == temp[i + 1..];
        c.Release();
        i := i + 1;
      }
    }
  }

  /** A positive position inside the chapter is the chapter's frame at that position. */
  lemma {:induction false} RelativeInside(active: seq<Verse>, tapeFrames: int, k: int)
    requires 0 < k < |ChapterFrames(active)|
    ensures RelativeToAbsolute(active, tapeFrames, k) == ChapterFrames(active)[k]
  {
  }

  /** A positive position past the chapter's end is the last active verse's last frame, or the tape's length without one. */
  lemma {:induction false} RelativePastEnd(active: seq<Verse>, tapeFrames: int, k: int)
    requires 0 < k && |ChapterFrames(active)| <= k
    ensures RelativeToAbsolute(active, tapeFrames, k) == if active != [] then active[|active| - 1].LastFrame() else tapeFrames
  {
  }

  /** The chapter's frames over the first `i + 1` verses: those over the first `i`, then verse `i`'s. */
  lemma {:induction false} ChapterPrefixStep(vs: seq<Verse>, i: int)
    requires 0 <= i < |vs|
    ensures ChapterFrames(vs[..i + 1]) == ChapterFrames(vs[..i]) + vs[i].Frames()
  {
    assert vs[..i + 1] == vs[..i] + [vs[i]];
    ChapterFramesAppend(vs[..i], [vs[i]]);
    ConsSlot(vs[i], []);
    assert [vs[i]] + [] == [vs[i]];
  }

  /** The frames of the first `j + 1` sectors: those of the first `j`, then sector `j`'s. */
  lemma {:induction false} SectorPrefixStep(ss: seq<Sector>, j: int)
    requires 0 <= j < |ss|
    ensures SectorFrames(ss[..j + 1]) == SectorFrames(ss[..j]) + ss[j].Frames()
  {
    assert ss[..j + 1] == ss[..j] + [ss[j]];
    SectorFramesAppend(ss[..j], [ss[j]]);
    SingleSector(ss[j]);
  }

  /**
   * Frame `r` of sector `si` of active verse `vi` sits in the chapter's frames right
   * after the frames of the verses before it and of the sectors before it.
   */
  lemma {:induction false} FrameAtCursor(vs: seq<Verse>, vi: int, si: int, r: int, k: int)
    requires AllNonEmpty(vs) && 0 <= vi < |vs|
    requires 0 <= si < |vs[vi].sectors| && 0 <= r < vs[vi].sectors[si].Length()
    requires k == |ChapterFrames(vs[..vi])| + |SectorFrames(vs[vi].sectors[..si])| + r
    ensures k < |ChapterFrames(vs)| && ChapterFrames(vs)[k] == vs[vi].sectors[si].first + r
  {
    var ss := vs[vi].sectors;
    var s := ss[si];
    ChapterFramesAround(vs, vi);
    SectorFramesAround(ss, si);
    assert NonEmptySectors(ss);
    assert s.Frames()[r] == s.first + r;
    WindowIndex(ChapterFrames(vs[..vi]), SectorFrames(ss[..si]), s.Frames(), SectorFrames(ss[si + 1..]), ChapterFrames(vs[vi + 1..]), r);
  }

  /** The frames of a verse around its `si`-th sector. */
  lemma {:induction false} SectorFramesAround(ss: seq<Sector>, si: int)
    requires 0 <= si < |ss|
    ensures SectorFrames(ss) == SectorFrames(ss[..si]) + (ss[si].Frames() + SectorFrames(ss[si + 1..]))
  {
    assert ss == ss[..si] + ss[si..];
    SectorFramesAppend(ss[..si], ss[si..]);
    assert ss[si..] == [ss[si]] + ss[si + 1..];
    ConsSectors(ss[si], ss[si + 1..]);
  }

  /** Index `r` of `m` in a concatenation around `m`. */
  lemma {:induction false} WindowIndex(a: seq<int>, b: seq<int>, m: seq<int>, c: seq<int>, d: seq<int>, r: int)
    requires 0 <= r < |m|
    ensures |a| + |b| + r < |a + (b + (m + c)) + d| && (a + (b + (m + c)) + d)[|a| + |b| + r] == m[r]
  {
  }

  /** The frames of one sector in front of a list of sectors. */
  lemma {:induction false} ConsSectors(s: Sector, rest: seq<Sector>)
    ensures SectorFrames([s] + rest) == s.Frames() + SectorFrames(rest)
  {
    assert ([s] + rest)[0] == s && ([s] + rest)[1..] == rest;
  }

  /** The chapter's total over the first `i + 1` slots: that over the first `i`, plus slot `i` when it is placed. */
  lemma {:induction false} TotalFramesPrefixStep(vs: seq<Verse>, i: int)
    requires 0 <= i < |vs|
    ensures TotalFrames(vs[..i + 1]) == TotalFrames(vs[..i]) + if vs[i].placed then vs[i].Length() else 0
  {
    assert vs[..i + 1] == vs[..i] + [vs[i]];
    ActiveVersesAppend(vs[..i], [vs[i]]);
    ConsTotal(vs[i], []);
    assert [vs[i]] + [] == [vs[i]];
    SumLengthsAppend(ActiveVerses(vs[..i]), ActiveVerses([vs[i]]));
  }

  /** The chapter's total over a prefix of the slots is at most the whole total, and not negative. */
  lemma {:induction false} TotalFramesPrefixBound(vs: seq<Verse>, k: int)
    requires AllNonEmpty(vs) && 0 <= k <= |vs|
    ensures 0 <= TotalFrames(vs[..k]) <= TotalFrames(vs)
  {
    assert vs == vs[..k] + vs[k..];
    ActiveVersesAppend(vs[..k], vs[k..]);
    SumLengthsAppend(ActiveVerses(vs[..k]), ActiveVerses(vs[k..]));
    assert AllNonEmpty(vs[..k]) && AllNonEmpty(vs[k..]) by {
      forall j | 0 <= j < k ensures NonEmptySectors(vs[..k][j].sectors) {
        assert vs[..k][j] == vs[j];
      }
      forall j | 0 <= j < |vs| - k ensures NonEmptySectors(vs[k..][j].sectors) {
        assert vs[k..][j] == vs[k + j];
      }
    }
    AllWellFormedActiveNonEmpty(vs[..k]);
    AllWellFormedActiveNonEmpty(vs[k..]);
    SumLengthsNonNegative(ActiveVerses(vs[..k]));
    SumLengthsNonNegative(ActiveVerses(vs[k..]));
  }

  /** The active verses of slots that lie on the tape lie on the tape. */
  lemma {:induction false} CoversActive(tape: seq<bv8>, fs: FrameSize, vs: seq<Verse>)
    requires CoversVerses(tape, fs, vs)
    ensures CoversVerses(tape, fs, ActiveVerses(vs))
  {
    var a := ActiveVerses(vs);
    ActiveMembers(vs);
    forall i | 0 <= i < |a| ensures Covers(tape, fs, a[i].sectors) {
      assert a[i] in a;
      var j :| 0 <= j < |vs| && vs[j] == a[i];
    }
  }

  /** The trimmed slots lie on a tape that holds exactly the chapter's frames. */
  lemma {:induction false} TrimmedCovered(t: seq<bv8>, fs: FrameSize, vs: seq<Verse>)
    requires AllWellFormed(vs) && AllRecorded(vs)
    requires |t| == Bytes(TotalFrames(vs), fs)
    ensures CoversVerses(t, fs, TrimFrom(vs, 0))
  {
    var r := TrimFrom(vs, 0);
    AllWellFormedNonEmpty(vs);
    forall i | 0 <= i < |r| ensures Covers(t, fs, r[i].sectors) {
      TrimFromSlot(vs, 0, i);
      if vs[i].placed {
        TotalFramesPrefixStep(vs, i);
        TotalFramesPrefixBound(vs, i);
        TotalFramesPrefixBound(vs, i + 1);
        var first := TotalFrames(vs[..i]);
        var last := first + vs[i].Length() - 1;
        assert r[i].sectors == [Sector(first, last)];
        BytesMonotone(last + 1, TotalFrames(vs), fs);
      } else {
        assert vs[i].WellFormed();
      }
    }
  }

  /** Updating slots whose placed slots form a prefix keeps them valid: only markers change. */
  lemma {:induction false} UpdatedKeepsValid(vs: seq<Verse>, tape: seq<bv8>, fs: FrameSize)
    requires AllWellFormed(vs) && AllRecorded(vs) && CoversVerses(tape, fs, vs)
    requires PlacedPrefix(vs)
    ensures AllWellFormed(UpdatedVerses(vs)) && AllRecorded(UpdatedVerses(vs)) && CoversVerses(tape, fs, UpdatedVerses(vs))
  {
    UpdatedVersesOnPrefix(vs);
    var u := UpdatedVerses(vs);
    forall i | 0 <= i < |u| ensures u[i].WellFormed() && u[i].Recorded() && Covers(tape, fs, u[i].sectors) {
      assert u[i].placed == vs[i].placed && u[i].sectors == vs[i].sectors;
      assert vs[i].WellFormed() && vs[i].Recorded() && Covers(tape, fs, vs[i].sectors);
    }
  }

  /**
   * The corrected update keeps valid slots valid whatever the order of placed and
   * unplaced slots: it changes markers only.
   */
  lemma {:induction false} RelocatedKeepsValid(vs: seq<Verse>, tape: seq<bv8>, fs: FrameSize)
    requires AllWellFormed(vs) && AllRecorded(vs) && CoversVerses(tape, fs, vs)
    ensures AllWellFormed(RelocatedVerses(vs)) && AllRecorded(RelocatedVerses(vs)) && CoversVerses(tape, fs, RelocatedVerses(vs))
  {
    var r := RelocatedVerses(vs);
    forall i | 0 <= i < |r| ensures r[i].WellFormed() && r[i].Recorded() && Covers(tape, fs, r[i].sectors) {
      assert vs[i].WellFormed() && vs[i].Recorded() && Covers(tape, fs, vs[i].sectors);
    }
  }

  /** The lengths of the first `i + 1` verses: those of the first `i`, and verse `i`. */
  lemma {:induction false} PrefixSumStep(vs: seq<Verse>, i: int)
    requires 0 <= i < |vs|
    ensures SumLengths(vs[..i + 1]) == SumLengths(vs[..i]) + vs[i].Length()
  {
    assert vs[..i + 1] == vs[..i] + [vs[i]];
    SumLengthsAppend(vs[..i], [vs[i]]);
    assert SumLengths([vs[i]]) == vs[i].Length() + SumLengths([]);
  }

  class ChapterRepresentationConnection {
    /** The chapter this connection reads (the enclosing instance of the inner class). */
    const owner: ChapterRepresentation
    var start: Option<int>
    var end: Option<int>
    /** Whether the tape file is open (`randomAccessFile != null`). */
    var isOpen: bool
    /** The read cursor, in bytes. */
    var position: int
    /** The index of the active verse the connection is locked to, or `ChapterUnlocked`. */
    var lock: int

    /** A connection starting at frame `start` (byte 0 without one), unlocked and not yet open. */
    constructor (owner: ChapterRepresentation, start: Option<int>, end: Option<int>)
      ensures this.owner == owner && this.start == start && this.end == end
      ensures position == (if start.Some? then Bytes(start.value, owner.frameSize) else 0)
      ensures lock == ChapterUnlocked && !isOpen
    {
      this.owner := owner;
      this.start := start;
      this.end := end;
      position := if start.Some? then Bytes(start.value, owner.frameSize) else 0;
      lock := ChapterUnlocked;
      isOpen := false;
    }

    /** `absoluteFramePosition`: the frame holding the cursor. */
    function AbsoluteFramePosition(): (f: int)
      reads this
      ensures 0 <= position ==> 0 <= f && Bytes(f, owner.frameSize) <= position < Bytes(f + 1, owner.frameSize)
    {
      CursorFrame(position, owner.frameSize);
      FrameOf(position, owner.frameSize)
    }

    /**
     * `absoluteToRelativeVerse(f, verseIndex)`: `f`'s position inside the active verse
     * at `verseIndex`, 0 when there is no such verse (see `VerseRelativeLocates`).
     */
    function AbsoluteToRelativeVerse(absoluteFrame: int, verseIndex: int): (rel: int)
      reads owner
      ensures !(0 <= verseIndex < |ActiveVerses(owner.totalVerses)|) ==> rel == 0
    {
      var verses := ActiveVerses(owner.totalVerses);
      if 0 <= verseIndex < |verses| then verses[verseIndex].FramesToPosition(absoluteFrame) else 0
    }

    /**
     * `absoluteToRelative(f)`: `f` in chapter coordinates when unlocked, in the locked
     * verse's coordinates otherwise (see `ChapterRelativeLocates`).
     */
    function AbsoluteToRelative(absoluteFrame: int): (rel: int)
      reads this, owner
      ensures lock != ChapterUnlocked ==> rel == AbsoluteToRelativeVerse(absoluteFrame, lock)
    {
      if lock == ChapterUnlocked then LocationInChapter(ActiveVerses(owner.totalVerses), absoluteFrame)
      else AbsoluteToRelativeVerse(absoluteFrame, lock)
    }

    /** `framePosition`: the cursor's frame in the connection's coordinates. */
    function FramePosition(): (rel: int)
      reads this, owner
      ensures owner.Valid() && lock == ChapterUnlocked && InChapter(ActiveVerses(owner.totalVerses), AbsoluteFramePosition()) ==>
        var frames := ChapterFrames(ActiveVerses(owner.totalVerses));
        0 <= rel < |frames| && frames[rel] == AbsoluteFramePosition()
      ensures owner.Valid() && 0 <= lock < |ActiveVerses(owner.totalVerses)|
              && ActiveVerses(owner.totalVerses)[lock].Contains(AbsoluteFramePosition()) ==>
        var frames := ActiveVerses(owner.totalVerses)[lock].Frames();
        0 <= rel < |frames| && frames[rel] == AbsoluteFramePosition()
    {
      RelativeLocates(this, AbsoluteFramePosition());
      AbsoluteToRelative(AbsoluteFramePosition())
    }

    /**
     * The connection's `totalFrames`: the chapter's when unlocked, the locked verse's
     * length otherwise; `None` when the lock names no active verse, where the source
     * throws an index-out-of-bounds exception.
     */
    function ReaderTotalFrames(): (r: Option<int>)
      reads this, owner
      ensures lock == ChapterUnlocked ==> r == Some(TotalFrames(owner.totalVerses))
      ensures lock != ChapterUnlocked ==> (r.Some? <==> 0 <= lock < |ActiveVerses(owner.totalVerses)|)
      ensures lock != ChapterUnlocked && r.Some? ==> r.value == ActiveVerses(owner.totalVerses)[lock].Length()
    {
      var verses := ActiveVerses(owner.totalVerses);
      if lock == ChapterUnlocked then Some(TotalFrames(owner.totalVerses))
      else if 0 <= lock < |verses| then Some(verses[lock].Length())
      else None
    }

    /**
     * `hasRemaining()`: false without frames or without an open file; otherwise
     * whether the cursor's frame lies in the locked verse (the chapter, when
     * unlocked) and is not its last frame. `None` where the source throws.
     */
    function HasRemaining(): (r: Option<bool>)
      reads this, owner
      ensures r.None? <==> ReaderTotalFrames().None?
      ensures r.Some? ==> (r.value <==>
                isOpen && ReaderTotalFrames() != Some(0)
                && (lock == ChapterUnlocked ==>
                      InChapter(ActiveVerses(owner.totalVerses), AbsoluteFramePosition())
                      && AbsoluteFramePosition() != ActiveVerses(owner.totalVerses)[|ActiveVerses(owner.totalVerses)| - 1].LastFrame())
                && (lock != ChapterUnlocked ==>
                      ActiveVerses(owner.totalVerses)[lock].Contains(AbsoluteFramePosition())
                      && AbsoluteFramePosition() != ActiveVerses(owner.totalVerses)[lock].LastFrame()))
    {
      var total := ReaderTotalFrames();
      if total.None? then None
      else if total.value == 0 || !isOpen then Some(false)
      else
        var current := AbsoluteFramePosition();
        var verses := ActiveVerses(owner.totalVerses);
        if lock != ChapterUnlocked then Some(verses[lock].Contains(current) && current != verses[lock].LastFrame())
        else Some(HasRemainingChapter(verses, owner.frameSize, position))
    }

    /**
     * `lockToVerse(index)`: `None` unlocks; an index naming no active verse changes
     * nothing; otherwise the connection locks to that verse, and the cursor moves to
     * the verse's first frame unless the verse holds it. As written, the test is made
     * on the cursor's byte offset, not on its frame (see `LockTestsBytePosition`).
     */
    method LockToVerse(index: Option<int>)
      modifies this
      ensures index.None? ==> lock == ChapterUnlocked && position == old(position)
      ensures index.Some? && !(0 <= index.value < |ActiveVerses(owner.totalVerses)|) ==>
                lock == old(lock) && position == old(position)
      ensures index.Some? && 0 <= index.value < |ActiveVerses(owner.totalVerses)| ==>
                lock == index.value
                && position == LockedPosition(ActiveVerses(owner.totalVerses)[index.value], old(position), owner.frameSize)
      ensures isOpen == old(isOpen) && start == old(start) && end == old(end)
    {
      if index.Some? {
        var verses := ActiveVerses(owner.totalVerses);
        if index.value > |verses| - 1 || index.value < 0 {
          return;
        }
        var node := verses[index.value];
        lock := index.value;
        if !node.Contains(position) {
          position := Bytes(node.FirstFrame(), owner.frameSize);
        }
      } else {
        lock := ChapterUnlocked;
      }
    }

    /**
     * `reset()`: the cursor goes to the first frame of the locked verse (of the first
     * active verse, when unlocked). Without active verses the cursor is first set to
     * 0 and the lookup then fails, as in the source, which goes on after that
     * assignment; a lock naming no active verse fails too.
     */
    method Reset() returns (r: Result<()>)
      modifies this
      ensures ActiveVerses(owner.totalVerses) == [] ==> r.Err? && position == 0
      ensures var verses := ActiveVerses(owner.totalVerses);
              var index := if lock == ChapterUnlocked then 0 else lock;
              verses != [] ==>
                if 0 <= index < |verses| then r.Ok? && position == Bytes(verses[index].FirstFrame(), owner.frameSize)
                else r.Err? && position == old(position)
      ensures lock == old(lock) && isOpen == old(isOpen) && start == old(start) && end == old(end)
    {
      var verses := ActiveVerses(owner.totalVerses);
      if verses == [] {
        position := 0;
      }
      var index := lock;
      index := if index == ChapterUnlocked then 0 else index;
      if !(0 <= index < |verses|) {
        return Err("index out of bounds");
      }
      position := Bytes(verses[index].FirstFrame(), owner.frameSize);
      return Ok(());
    }

    /**
     * `locationInVerseToLocationInChapter(sample, verseIndex)`: a sample counted from the
     * start of verse `verseIndex` as a position in the chapter, that is shifted by where
     * the verse's first frame lies in the chapter. `Err` for an index naming no active verse.
     */
    method LocationInVerseToLocationInChapter(sample: int, verseIndex: int) returns (r: Result<int>)
      ensures var verses := ActiveVerses(owner.totalVerses);
              !(0 <= verseIndex < |verses|) <==> r.Err?
      ensures var verses := ActiveVerses(owner.totalVerses);
              0 <= verseIndex < |verses| ==> r == Ok(sample + LocationInChapter(verses, verses[verseIndex].FirstFrame()))
    {
      var verses := ActiveVerses(owner.totalVerses);
      if !(0 <= verseIndex < |verses|) {
        return Err("index out of bounds");
      }
      var verseStart := owner.AudioLocationToLocationInChapter(verses[verseIndex].FirstFrame());
      return Ok(sample + verseStart);
    }

    /**
     * `seek(sample)`: `sample` is in the connection's coordinates; when locked it is
     * first moved to chapter coordinates by adding where the locked verse starts in
     * the chapter. The cursor then goes to the tape frame at that chapter position.
     * A lock naming no active verse fails, as the source's lookup does.
     */
    method Seek(sample: int) returns (r: Result<()>)
      requires AllWellFormed(owner.totalVerses)
      modifies this
      ensures var verses := ActiveVerses(owner.totalVerses);
              lock != ChapterUnlocked && !(0 <= lock < |verses|) ==> r.Err? && position == old(position)
      ensures var verses := ActiveVerses(owner.totalVerses);
              lock == ChapterUnlocked ==>
                r.Ok? && position == Bytes(RelativeToAbsolute(verses, owner.TapeFrames(), sample), owner.frameSize)
      ensures var verses := ActiveVerses(owner.totalVerses);
              lock != ChapterUnlocked && 0 <= lock < |verses| ==>
                var inChapter := sample + LocationInChapter(verses, verses[lock].FirstFrame());
                r.Ok? && position == Bytes(RelativeToAbsolute(verses, owner.TapeFrames(), inChapter), owner.frameSize)
      ensures lock == old(lock) && isOpen == old(isOpen) && start == old(start) && end == old(end)
    {
      var relativeChapterSample := sample;
      if lock != ChapterUnlocked {
        var inChapter := LocationInVerseToLocationInChapter(sample, lock);
        if inChapter.Err? {
          return Err(inChapter.message);
        }
        relativeChapterSample := inChapter.value;
      }
      var absolute := owner.RelativeChapterToAbsolute(relativeChapterSample);
      position := Bytes(absolute, owner.frameSize);
      return Ok(());
    }

    /**
     * `getPcmBuffer(bytes)`: nothing when the connection has no frames; otherwise a
     * read from the locked verse, or, unlocked, from the verse holding the cursor
     * (the first active verse when none does). `Err` where the source throws: a lock
     * naming no active verse, or a read before the file is opened.
     */
    method GetPcmBuffer(bytes: array<bv8>) returns (r: Result<int>)
      requires AllWellFormed(owner.totalVerses)
      modifies this, bytes
      ensures ReaderTotalFrames().None? ==> r.Err? && position == old(position) && bytes[..] == old(bytes[..])
      ensures ReaderTotalFrames() == Some(0) ==> r == Ok(0) && position == old(position) && bytes[..] == old(bytes[..])
      ensures var verses := ActiveVerses(owner.totalVerses);
              ReaderTotalFrames().Some? && ReaderTotalFrames() != Some(0) ==>
                verses != [] &&
                var vi := if lock == ChapterUnlocked then VerseToReadFrom(verses, FrameOf(old(position), owner.frameSize)) else lock;
                0 <= vi < |verses| &&
                if !isOpen then r.Err? && position == old(position) && bytes[..] == old(bytes[..])
                else
                  WellFormedSectors(verses[vi].sectors) &&
                  var o := PcmBufferVerse(owner.tape, owner.frameSize, verses, vi, lock != ChapterUnlocked, old(bytes[..]), old(position));
                  r == Ok(o.count) && bytes[..] == o.buf && position == o.position
      ensures lock == old(lock) && isOpen == old(isOpen) && start == old(start) && end == old(end)
    {
      var total := ReaderTotalFrames();
      if total.None? {
        return Err("index out of bounds");
      }
      if total.value == 0 {
        return Ok(0);
      }
      var verses := ActiveVerses(owner.totalVerses);
      if lock == ChapterUnlocked {
        if verses == [] {
          return Ok(0);
        }
        var verseToReadFrom := VerseToReadFrom(verses, AbsoluteFramePosition());
        r := GetPcmBufferVerse(bytes, verseToReadFrom);
      } else {
        r := GetPcmBufferVerse(bytes, lock);
      }
    }

    /**
     * `getPcmBufferVerse(bytes, verse)`: the read `PcmBufferVerse` describes, step by
     * step: the copy loop over the sectors from the cursor on, then the jump to the
     * next verse when the cursor ended on the verse's last frame.
     */
    method GetPcmBufferVerse(bytes: array<bv8>, vi: int) returns (r: Result<int>)
      requires AllWellFormed(owner.totalVerses) && 0 <= vi < |ActiveVerses(owner.totalVerses)|
      modifies this, bytes
      ensures !isOpen ==> r.Err? && position == old(position) && bytes[..] == old(bytes[..])
      ensures isOpen ==>
                WellFormedSectors(ActiveVerses(owner.totalVerses)[vi].sectors) &&
                var o := PcmBufferVerse(owner.tape, owner.frameSize, ActiveVerses(owner.totalVerses), vi,
                                        lock != ChapterUnlocked, old(bytes[..]), old(position));
                r == Ok(o.count) && bytes[..] == o.buf && position == o.position
      ensures lock == old(lock) && isOpen == old(isOpen) && start == old(start) && end == old(end)
    {
      if !isOpen {
        return Err("getPcmBufferVerse called before opening file");
      }
      var verses := ActiveVerses(owner.totalVerses);
      var verse := verses[vi];
      var tape := owner.tape;
      var fs := owner.frameSize;
      ActiveWellFormed(owner.totalVerses, vi);
      PcmBufferNoCopy(tape, fs, verses, vi, lock != ChapterUnlocked, bytes[..], position);
      if !verse.Contains(AbsoluteFramePosition()) {
        return Ok(0);
      }
      var framesToRead := Min(FrameOf(bytes.Length, fs), verse.Length());
      if framesToRead <= 0 {
        position := Bytes(verse.LastFrame(), fs);
        return Ok(0);
      }
      var sectors := verse.GetSectorsFromOffset(AbsoluteFramePosition(), framesToRead);
      if sectors == [] {
        position := Bytes(verse.LastFrame(), fs);
        return Ok(0);
      }
      SectorsFromStartOnTape(verse.sectors, AbsoluteFramePosition(), framesToRead);
      ghost var final := CopySectors(tape, fs, verse, sectors, Cursor(0, position, framesToRead, bytes[..]));
      PcmBufferCopied(tape, fs, verses, vi, lock != ChapterUnlocked, bytes[..], position, final);
      var bytesWritten := CopySectorsInto(bytes, verse, sectors, framesToRead);
      if AbsoluteFramePosition() == verse.LastFrame() {
        AdjustPositionToNextVerse(vi);
      }
      return Ok(bytesWritten);
    }

    /** The copy loop of `getPcmBufferVerse` over `sectors`, as `CopySectors` describes it. */
    method CopySectorsInto(bytes: array<bv8>, verse: Verse, sectors: seq<Sector>, toRead: int) returns (bytesWritten: int)
      requires forall i :: 0 <= i < |sectors| ==> 0 <= sectors[i].first
      modifies this, bytes
      ensures var final := CopySectors(owner.tape, owner.frameSize, verse, sectors, Cursor(0, old(position), toRead, old(bytes[..])));
              bytesWritten == final.written && position == final.position && bytes[..] == final.buf
      ensures lock == old(lock) && isOpen == old(isOpen) && start == old(start) && end == old(end)
    {
      var tape := owner.tape;
      var fs := owner.frameSize;
      var pos := position;
      ghost var final := CopySectors(tape, fs, verse, sectors, Cursor(0, pos, toRead, bytes[..]));
      bytesWritten := 0;
      var framesToRead := toRead;
      var i := 0;
      while i < |sectors|
        invariant 0 <= i <= |sectors|
        invariant 0 <= bytesWritten <= bytes.Length
        invariant CopySectors(tape, fs, verse, sectors[i..], Cursor(bytesWritten, pos, framesToRead, bytes[..])) == final
        invariant unchanged(this)
      {
        ghost var cur := Cursor(bytesWritten, pos, framesToRead, bytes[..]);
        if framesToRead <= 0 || !verse.Contains(FrameOf(pos, fs)) {
          CopySectorsStops(tape, fs, verse, sectors, i, cur);
          break;
        }
        CopySectorsStep(tape, fs, verse, sectors, i, cur);
        bytesWritten, pos, framesToRead := CopySectorInto(tape, fs, bytes, sectors[i], bytesWritten, pos, framesToRead);
        i := i + 1;
      }
      if i == |sectors| {
        CopySectorsStops(tape, fs, verse, sectors, i, Cursor(bytesWritten, pos, framesToRead, bytes[..]));
      }
      position := pos;
    }
    /**
     * `adjustPositionToNextVerse(verse)`: an unlocked connection moves its cursor to
     * the next active verse's first frame, unless the verse is the last one.
     */
    method AdjustPositionToNextVerse(vi: int)
      requires 0 <= vi < |ActiveVerses(owner.totalVerses)|
      modifies this
      ensures var verses := ActiveVerses(owner.totalVerses);
              position == if lock == ChapterUnlocked && vi != |verses| - 1
                          then Bytes(verses[vi + 1].FirstFrame(), owner.frameSize) else old(position)
      ensures lock == old(lock) && isOpen == old(isOpen) && start == old(start) && end == old(end)
    {
      if lock != ChapterUnlocked {
        return;
      }
      var verses := ActiveVerses(owner.totalVerses);
      if vi == |verses| - 1 {
        return;
      }
      position := Bytes(verses[vi + 1].FirstFrame(), owner.frameSize);
    }

    /** `open()`: a connection already open is released first (which takes it out of the registry), then the file is opened. */
    method Open()
      modifies this, owner
      ensures isOpen
      ensures owner.connections == if old(isOpen) then RemoveFirst(old(owner.connections), this) else old(owner.connections)
      ensures owner.totalVerses == old(owner.totalVerses) && owner.tape == old(owner.tape)
      ensures position == old(position) && lock == old(lock) && start == old(start) && end == old(end)
    {
      if isOpen {
        Release();
      }
      isOpen := true;
    }

    /** `release()`: the file is closed and the connection leaves the registry. */
    method Release()
      modifies this, owner
      ensures !isOpen && owner.connections == RemoveFirst(old(owner.connections), this)
      ensures owner.totalVerses == old(owner.totalVerses) && owner.tape == old(owner.tape)
      ensures position == old(position) && lock == old(lock) && start == old(start) && end == old(end)
      ensures old(owner.Registry()) ==> owner.Registry() && this !in owner.connections
    {
      isOpen := false;
      if owner.Registry() {
        RemoveFirstDistinct(owner.connections, this);
      }
      owner.connections := RemoveFirst(owner.connections, this);
    }

    /** `close()`: the same as `release()`. */
    method Close()
      modifies this, owner
      ensures !isOpen && owner.connections == RemoveFirst(old(owner.connections), this)
      ensures owner.totalVerses == old(owner.totalVerses) && owner.tape == old(owner.tape)
      ensures position == old(position) && lock == old(lock) && start == old(start) && end == old(end)
      ensures old(owner.Registry()) ==> owner.Registry() && this !in owner.connections
    {
      Release();
    }
  }

  // ---------------------------------------------------------------------------
  // Seeking and the reported position

  /**
   * On an unlocked connection, seeking to a chapter position and then asking for the
   * position gives that position back, when no frame of the chapter is shared.
   */
  lemma {:induction false} SeekThenFramePosition(c: ChapterRepresentationConnection, k: int)
    requires c.owner.Valid() && c.lock == ChapterUnlocked
    requires DistinctFrames(ActiveVerses(c.owner.totalVerses))
    requires 0 <= k < |ChapterFrames(ActiveVerses(c.owner.totalVerses))|
    requires c.position == Bytes(RelativeToAbsolute(ActiveVerses(c.owner.totalVerses), c.owner.TapeFrames(), k), c.owner.frameSize)
    ensures c.FramePosition() == k
  {
    var a := ActiveVerses(c.owner.totalVerses);
    AllWellFormedNonEmpty(c.owner.totalVerses);
    FirstActiveRecorded(c.owner.totalVerses);
    FrameOfBytes(RelativeToAbsolute(a, c.owner.TapeFrames(), k), c.owner.frameSize);
    LocationOfRelative(a, c.owner.TapeFrames(), k);
  }

  /**
   * On an unlocked connection whose cursor is on a frame of the chapter, seeking to
   * the reported position lands on that same frame.
   */
  lemma {:induction false} FramePositionThenSeek(c: ChapterRepresentationConnection)
    requires c.owner.Valid() && c.lock == ChapterUnlocked
    requires InChapter(ActiveVerses(c.owner.totalVerses), c.AbsoluteFramePosition())
    ensures RelativeToAbsolute(ActiveVerses(c.owner.totalVerses), c.owner.TapeFrames(), c.FramePosition()) == c.AbsoluteFramePosition()
  {
    AllWellFormedNonEmpty(c.owner.totalVerses);
    FirstActiveRecorded(c.owner.totalVerses);
    RelativeOfLocation(ActiveVerses(c.owner.totalVerses), c.owner.TapeFrames(), c.AbsoluteFramePosition());
  }

  /**
   * On a connection locked to a verse, seeking to a position inside the verse (which
   * `seek` moves to chapter coordinates by adding where the verse starts) and then
   * asking for the position gives that position back, when no frame is shared.
   */
  lemma {:induction false} LockedSeekThenFramePosition(c: ChapterRepresentationConnection, k: int)
    requires c.owner.Valid()
    requires 0 <= c.lock < |ActiveVerses(c.owner.totalVerses)|
    requires DistinctFrames(ActiveVerses(c.owner.totalVerses))
    requires 0 <= k < ActiveVerses(c.owner.totalVerses)[c.lock].Length()
    requires var a := ActiveVerses(c.owner.totalVerses);
             c.position == Bytes(RelativeToAbsolute(a, c.owner.TapeFrames(), k + LocationInChapter(a, a[c.lock].FirstFrame())),
                                 c.owner.frameSize)
    ensures c.FramePosition() == k
  {
    var a := ActiveVerses(c.owner.totalVerses);
    AllWellFormedNonEmpty(c.owner.totalVerses);
    ActiveRecorded(c.owner.totalVerses);
    var x := RelativeToAbsolute(a, c.owner.TapeFrames(), k + LocationInChapter(a, a[c.lock].FirstFrame()));
    FrameOfBytes(x, c.owner.frameSize);
    VerseSeekRoundTrip(a, c.owner.TapeFrames(), c.lock, k);
  }

  /**
   * Chapter position `k` past the start of verse `l` is the verse's `k`-th frame, and
   * that frame's position inside the verse is `k`, when no frame is shared.
   */
  lemma {:induction false} VerseSeekRoundTrip(a: seq<Verse>, tf: int, l: int, k: int)
    requires AllNonEmpty(a) && forall i :: 0 <= i < |a| ==> a[i].sectors != []
    requires DistinctFrames(a) && 0 <= l < |a| && 0 <= k < a[l].Length()
    ensures a[l].FramesToPosition(RelativeToAbsolute(a, tf, k + LocationInChapter(a, a[l].FirstFrame()))) == k
  {
    FramesLength(a[l].sectors);
    SeekLandsInVerse(a, tf, l, k);
    VersePositionOfDistinct(a, l, k);
  }

  /** Chapter position `k` past the start of verse `l` is the verse's `k`-th frame, when no frame is shared. */
  lemma {:induction false} SeekLandsInVerse(a: seq<Verse>, tf: int, l: int, k: int)
    requires AllNonEmpty(a) && forall i :: 0 <= i < |a| ==> a[i].sectors != []
    requires DistinctFrames(a) && 0 <= l < |a| && 0 <= k < |a[l].Frames()|
    ensures RelativeToAbsolute(a, tf, k + LocationInChapter(a, a[l].FirstFrame())) == a[l].Frames()[k]
  {
    VerseStart(a, l);
    VerseFrameAt(a, l, k);
    RelativeAt(a, tf, |ChapterFrames(a[..l])| + k);
  }

  /** When no frame is shared, a verse's `k`-th frame is at position `k` inside the verse. */
  lemma {:induction false} VersePositionOfDistinct(a: seq<Verse>, l: int, k: int)
    requires AllNonEmpty(a) && DistinctFrames(a) && 0 <= l < |a| && 0 <= k < |a[l].Frames()|
    ensures a[l].FramesToPosition(a[l].Frames()[k]) == k
  {
    var v := a[l];
    var f := v.Frames()[k];
    InSectorsIffInFrames(v.sectors, f);
    OffsetInLocates(v.sectors, f);
    var q := v.FramesToPosition(f);
    VerseFrameAt(a, l, q);
    VerseFrameAt(a, l, k);
  }

  /** Verse `l` starts in the chapter after the frames of the verses before it, when no frame is shared. */
  lemma {:induction false} VerseStart(a: seq<Verse>, l: int)
    requires AllNonEmpty(a) && forall i :: 0 <= i < |a| ==> a[i].sectors != []
    requires DistinctFrames(a) && 0 <= l < |a|
    ensures LocationInChapter(a, a[l].FirstFrame()) == |ChapterFrames(a[..l])|
  {
    PublishedLocation(a, l);
    assert AllNonEmpty(a[..l]) by {
      forall i | 0 <= i < l ensures NonEmptySectors(a[..l][i].sectors) {
        assert a[..l][i] == a[i];
      }
    }
    ChapterFramesLength(a[..l]);
  }

  /** Frame `j` of verse `l` sits in the chapter's frames right after the frames of the verses before it. */
  lemma {:induction false} VerseFrameAt(a: seq<Verse>, l: int, j: int)
    requires 0 <= l < |a| && 0 <= j < |a[l].Frames()|
    ensures |ChapterFrames(a[..l])| + j < |ChapterFrames(a)|
    ensures ChapterFrames(a)[|ChapterFrames(a[..l])| + j] == a[l].Frames()[j]
  {
    ChapterFramesAround(a, l);
    IndexInMiddle(ChapterFrames(a[..l]), a[l].Frames(), ChapterFrames(a[l + 1..]), j);
  }

  /** Index `j` of `m` in `a + m + d`. */
  lemma {:induction false} IndexInMiddle(a: seq<int>, m: seq<int>, d: seq<int>, j: int)
    requires 0 <= j < |m|
    ensures |a| + j < |a + m + d| && (a + m + d)[|a| + j] == m[j]
  {
  }

  /** Any chapter position inside the chapter is the chapter's frame at that position. */
  lemma {:induction false} RelativeAt(active: seq<Verse>, tapeFrames: int, k: int)
    requires AllNonEmpty(active) && (active != [] ==> active[0].sectors != [])
    requires 0 <= k < |ChapterFrames(active)|
    ensures RelativeToAbsolute(active, tapeFrames, k) == ChapterFrames(active)[k]
  {
    if k == 0 {
      FirstChapterFrame(active);
    } else {
      RelativeInside(active, tapeFrames, k);
    }
  }

  /** Every active verse of slots whose placed verses hold audio holds audio. */
  lemma {:induction false} ActiveRecorded(vs: seq<Verse>)
    requires AllRecorded(vs)
    ensures forall i :: 0 <= i < |ActiveVerses(vs)| ==> ActiveVerses(vs)[i].sectors != []
  {
    var a := ActiveVerses(vs);
    ActiveMembers(vs);
    forall i | 0 <= i < |a| ensures a[i].sectors != [] {
      assert a[i] in a;
      var j :| 0 <= j < |vs| && vs[j] == a[i];
      assert vs[j].Recorded();
    }
  }

  /**
   * One pass of the copy loop over `sector`, as `CopySector` describes it: the bytes
   * go into the caller's array, and the cursor and the frames still wanted come back.
   */
  method CopySectorInto(tape: seq<bv8>, fs: FrameSize, bytes: array<bv8>, sector: Sector, written: int, position: int, toRead: int)
    returns (written': int, position': int, toRead': int)
    requires 0 <= sector.first && 0 <= written <= bytes.Length
    modifies bytes
    ensures Cursor(written', position', toRead', bytes[..]) == CopySector(tape, fs, sector, Cursor(written, position, toRead, old(bytes[..])))
  {
    ghost var before := Cursor(written, position, toRead, bytes[..]);
    written', position', toRead' := written, position, toRead;
    var framesToCopy := Max(Min(toRead, sector.Length()), 0);
    BytesMonotone(0, sector.first, fs);
    BytesMonotone(0, framesToCopy, fs);
    var seekLoc := Bytes(sector.first, fs);
    var toCopy := ReadCount(|tape|, seekLoc, Bytes(framesToCopy, fs));
    if 0 < toCopy && written + toCopy <= bytes.Length {
      WriteBytes(bytes, written, tape[seekLoc .. seekLoc + toCopy]);
      written' := written + toCopy;
      position' := position + toCopy;
      toRead' := toRead - FrameOf(toCopy, fs);
    }
    CopySectorSteps(tape, fs, sector, before, Cursor(written', position', toRead', bytes[..]));
    if !sector.Has(FrameOf(position', fs)) {
      position' := Bytes(sector.last, fs);
    }
  }

  /** The cursor `lockToVerse` leaves: unchanged when the verse holds the cursor's byte offset taken as a frame, else the verse's first frame. */
  function LockedPosition(node: Verse, position: int, fs: FrameSize): (p: int)
    ensures node.Contains(position) ==> p == position
    ensures !node.Contains(position) ==> p == Bytes(node.FirstFrame(), fs) && FrameOf(p, fs) == node.FirstFrame()
  {
    FrameOfBytes(node.FirstFrame(), fs);
    if node.Contains(position) then position else Bytes(node.FirstFrame(), fs)
  }

  /**
   * The byte offset is tested as if it were a frame: with two bytes per frame, a
   * cursor at byte 12 is on frame 6, inside a verse recorded at frames 0..9, yet
   * locking to that verse moves the cursor back to frame 0.
   */
  lemma {:induction false} LockTestsBytePosition()
    ensures var v := Verse(true, VerseMarker(1, 1, 0), [Sector(0, 9)]);
            v.Contains(FrameOf(12, 2)) && LockedPosition(v, 12, 2) == 0
  {
    var v := Verse(true, VerseMarker(1, 1, 0), [Sector(0, 9)]);
    assert FrameOf(12, 2) == 6;
    assert v.Contains(6);
    assert !v.Contains(12);
  }

  /** The cursor `lockToVerse` is evidently meant to leave: unchanged when the verse holds the cursor's frame, else the verse's first frame. */
  function LockedFramePosition(node: Verse, position: int, fs: FrameSize): (p: int)
    ensures node.Contains(FrameOf(position, fs)) ==> p == position
    ensures !node.Contains(FrameOf(position, fs)) ==> p == Bytes(node.FirstFrame(), fs)
  {
    if node.Contains(FrameOf(position, fs)) then position else Bytes(node.FirstFrame(), fs)
  }

  /**
   * Tested on frames, locking keeps a cursor the verse holds and otherwise moves it
   * into the verse, so a locked connection always starts inside its verse.
   */
  lemma {:induction false} LockedFramePositionInVerse(node: Verse, position: int, fs: FrameSize)
    requires NonEmptySectors(node.sectors) && node.sectors != []
    ensures node.Contains(FrameOf(LockedFramePosition(node, position, fs), fs))
    ensures node.Contains(FrameOf(position, fs)) <==> LockedFramePosition(node, position, fs) == position
  {
    FrameOfBytes(node.FirstFrame(), fs);
    FirstFrameIsPositionZero(node);
  }

  /** Inside a verse of a valid chapter, a frame's relative position indexes that frame among the verse's frames. */
  lemma {:induction false} VerseRelativeLocates(c: ChapterRepresentationConnection, f: int, vi: int)
    requires c.owner.Valid() && 0 <= vi < |ActiveVerses(c.owner.totalVerses)|
    requires ActiveVerses(c.owner.totalVerses)[vi].Contains(f)
    ensures var rel := c.AbsoluteToRelativeVerse(f, vi);
            0 <= rel < |ActiveVerses(c.owner.totalVerses)[vi].Frames()|
            && ActiveVerses(c.owner.totalVerses)[vi].Frames()[rel] == f
  {
    var v := ActiveVerses(c.owner.totalVerses)[vi];
    ActiveWellFormed(c.owner.totalVerses, vi);
    OffsetInLocates(v.sectors, f);
    FramesLength(v.sectors);
  }

  /** Unlocked, a frame of a valid chapter maps to the position of its first occurrence among the chapter's frames. */
  lemma {:induction false} ChapterRelativeLocates(c: ChapterRepresentationConnection, f: int)
    requires c.owner.Valid() && c.lock == ChapterUnlocked
    requires InChapter(ActiveVerses(c.owner.totalVerses), f)
    ensures var rel := c.AbsoluteToRelative(f);
            var frames := ChapterFrames(ActiveVerses(c.owner.totalVerses));
            0 <= rel < |frames| && frames[rel] == f && forall j :: 0 <= j < rel ==> frames[j] != f
  {
    AllWellFormedNonEmpty(c.owner.totalVerses);
    LocationIsFirstOccurrence(ActiveVerses(c.owner.totalVerses), f);
  }

  /** Either coordinate system of a connection locates a frame its chapter or its locked verse holds. */
  lemma {:induction false} RelativeLocates(c: ChapterRepresentationConnection, f: int)
    ensures c.owner.Valid() && c.lock == ChapterUnlocked && InChapter(ActiveVerses(c.owner.totalVerses), f) ==>
      var frames := ChapterFrames(ActiveVerses(c.owner.totalVerses));
      0 <= c.AbsoluteToRelative(f) < |frames| && frames[c.AbsoluteToRelative(f)] == f
    ensures c.owner.Valid() && 0 <= c.lock < |ActiveVerses(c.owner.totalVerses)|
            && ActiveVerses(c.owner.totalVerses)[c.lock].Contains(f) ==>
      var frames := ActiveVerses(c.owner.totalVerses)[c.lock].Frames();
      0 <= c.AbsoluteToRelative(f) < |frames| && frames[c.AbsoluteToRelative(f)] == f
  {
    if c.owner.Valid() && c.lock == ChapterUnlocked && InChapter(ActiveVerses(c.owner.totalVerses), f) {
      ChapterRelativeLocates(c, f);
    }
    if c.owner.Valid() && 0 <= c.lock < |ActiveVerses(c.owner.totalVerses)|
       && ActiveVerses(c.owner.totalVerses)[c.lock].Contains(f) {
      VerseRelativeLocates(c, f, c.lock);
    }
  }

  /** Slots without audio are well formed, recorded and on any tape. */
  lemma {:induction false} EmptySlotsValid(vs: seq<Verse>, tape: seq<bv8>, fs: FrameSize)
    requires forall i :: 0 <= i < |vs| ==> !vs[i].placed && vs[i].sectors == []
    ensures AllWellFormed(vs) && AllRecorded(vs) && CoversVerses(tape, fs, vs)
  {
  }

  /** The inner loop's hit: the frame it returns is the chapter's frame at `k`. */
  lemma {:induction false} CursorHit(vs: seq<Verse>, tf: int, vi: int, si: int, remaining: int, k: int)
    requires AllNonEmpty(vs) && 0 <= vi < |vs| && 0 <= si < |vs[vi].sectors|
    requires 1 <= remaining <= vs[vi].sectors[si].Length() && k > 0
    requires k == |ChapterFrames(vs[..vi])| + |SectorFrames(vs[vi].sectors[..si])| + remaining - 1
    ensures RelativeToAbsolute(vs, tf, k)
            == if vs[vi].sectors[si].Length() == remaining then vs[vi].sectors[si].last
               else vs[vi].sectors[si].first + remaining - 1
  {
    FrameAtCursor(vs, vi, si, remaining - 1, k);
    RelativeInside(vs, tf, k);
  }

  /** `CopySector` as the loop body takes it: the copy (or nothing), then the pull back into the sector. */
  lemma {:induction false} CopySectorSteps(tape: seq<bv8>, fs: FrameSize, s: Sector, c: Cursor, copied: Cursor)
    requires 0 <= s.first && 0 <= c.written <= |c.buf|
    requires var toCopy := ReadCount(|tape|, Bytes(s.first, fs), Bytes(Max(Min(c.toRead, s.Length()), 0), fs));
             copied == if toCopy <= 0 || c.written + toCopy > |c.buf| then c
                       else Cursor(c.written + toCopy, c.position + toCopy, c.toRead - FrameOf(toCopy, fs),
                                   c.buf[..c.written] + tape[Bytes(s.first, fs) .. Bytes(s.first, fs) + toCopy] + c.buf[c.written + toCopy..])
    ensures CopySector(tape, fs, s, c) == if s.Has(FrameOf(copied.position, fs)) then copied else copied.(position := Bytes(s.last, fs))
  {
  }

  /** A read that stops before the copy loop: nothing outside the verse; otherwise the cursor snaps to the verse's last frame. */
  lemma {:induction false} PcmBufferNoCopy(tape: seq<bv8>, fs: FrameSize, active: seq<Verse>, vi: int, locked: bool,
                                           buf: seq<bv8>, position: int)
    requires 0 <= vi < |active| && WellFormedSectors(active[vi].sectors)
    ensures !active[vi].Contains(FrameOf(position, fs)) ==>
              PcmBufferVerse(tape, fs, active, vi, locked, buf, position) == Outcome(0, buf, position, false)
    ensures var n := Min(FrameOf(|buf|, fs), active[vi].Length());
            active[vi].Contains(FrameOf(position, fs))
            && (n <= 0 || active[vi].GetSectorsFromOffset(FrameOf(position, fs), n) == []) ==>
              PcmBufferVerse(tape, fs, active, vi, locked, buf, position) == Outcome(0, buf, Bytes(active[vi].LastFrame(), fs), false)
  {
  }

  /** A read that reaches the copy loop: what the loop leaves, with the cursor then moved on to the next verse. */
  lemma {:induction false} PcmBufferCopied(tape: seq<bv8>, fs: FrameSize, active: seq<Verse>, vi: int, locked: bool,
                                           buf: seq<bv8>, position: int, final: Cursor)
    requires 0 <= vi < |active| && WellFormedSectors(active[vi].sectors)
    requires active[vi].Contains(FrameOf(position, fs))
    requires Min(FrameOf(|buf|, fs), active[vi].Length()) > 0
    requires active[vi].GetSectorsFromOffset(FrameOf(position, fs), Min(FrameOf(|buf|, fs), active[vi].Length())) != []
    requires var n := Min(FrameOf(|buf|, fs), active[vi].Length());
             var ss := active[vi].GetSectorsFromOffset(FrameOf(position, fs), n);
             (forall i :: 0 <= i < |ss| ==> 0 <= ss[i].first)
             && final == CopySectors(tape, fs, active[vi], ss, Cursor(0, position, n, buf))
    ensures PcmBufferVerse(tape, fs, active, vi, locked, buf, position)
            == Outcome(final.written, final.buf, AdvanceAfterRead(active, vi, locked, fs, final.position), true)
  {
  }

  /** The copy loop goes on with the next sector while frames are wanted and the cursor is in the verse. */
  lemma {:induction false} CopySectorsStep(tape: seq<bv8>, fs: FrameSize, v: Verse, ss: seq<Sector>, i: int, c: Cursor)
    requires forall j :: 0 <= j < |ss| ==> 0 <= ss[j].first
    requires 0 <= i < |ss| && 0 <= c.written <= |c.buf|
    requires c.toRead > 0 && v.Contains(FrameOf(c.position, fs))
    ensures CopySectors(tape, fs, v, ss[i..], c) == CopySectors(tape, fs, v, ss[i + 1..], CopySector(tape, fs, ss[i], c))
  {
    assert ss[i..][0] == ss[i] && ss[i..][1..] == ss[i + 1..];
  }

  /** The copy loop stops when the sectors run out, no frames are wanted, or the cursor left the verse. */
  lemma {:induction false} CopySectorsStops(tape: seq<bv8>, fs: FrameSize, v: Verse, ss: seq<Sector>, i: int, c: Cursor)
    requires forall j :: 0 <= j < |ss| ==> 0 <= ss[j].first
    requires 0 <= i <= |ss| && 0 <= c.written <= |c.buf|
    requires i == |ss| || c.toRead <= 0 || !v.Contains(FrameOf(c.position, fs))
    ensures CopySectors(tape, fs, v, ss[i..], c) == c
  {
  }

  /** An active verse of valid slots is well formed. */
  lemma {:induction false} ActiveWellFormed(vs: seq<Verse>, k: int)
    requires AllWellFormed(vs) && 0 <= k < |ActiveVerses(vs)|
    ensures WellFormedSectors(ActiveVerses(vs)[k].sectors)
  {
    ActiveMembers(vs);
    var a := ActiveVerses(vs);
    assert a[k] in a;
    var j :| 0 <= j < |vs| && vs[j] == a[k];
    assert vs[j].WellFormed();
  }

  /** `System.arraycopy(src, 0, bytes, at, |src|)`: the array's bytes from `at` on are overwritten with `src`. */
  method WriteBytes(bytes: array<bv8>, at: int, src: seq<bv8>)
    requires 0 <= at && at + |src| <= bytes.Length
    modifies bytes
    ensures bytes[..] == old(bytes[..])[..at] + src + old(bytes[..])[at + |src|..]
  {
    ghost var before := bytes[..];
    forall k | 0 <= k < |src| {
      bytes[at + k] := src[k];
    }
    Spliced(before, bytes[..], at, src);
  }

  /** A buffer whose bytes `w .. w + |t|` were overwritten with `t` and the rest kept. */
  lemma {:induction false} Spliced(a: seq<bv8>, b: seq<bv8>, w: int, t: seq<bv8>)
    requires |a| == |b| && 0 <= w && w + |t| <= |a|
    requires forall k :: 0 <= k < |a| ==> b[k] == if w <= k < w + |t| then t[k - w] else a[k]
    ensures b == a[..w] + t + a[w + |t|..]
  {
    var c := a[..w] + t + a[w + |t|..];
    assert |c| == |b|;
    forall k | 0 <= k < |b| ensures b[k] == c[k] {
      if k < w {
        assert c[k] == a[k];
      } else if k < w + |t| {
        assert c[k] == t[k - w];
      } else {
        assert c[k] == a[k];
      }
    }
  }

  /** Appending a new element to a list without repeats keeps it free of repeats. */
  lemma {:induction false} ConsDistinctEnd<T>(s: seq<T>, x: T)
    requires Distinct(s) && x !in s
    ensures Distinct(s + [x])
  {
    var t := s + [x];
    forall i, j | 0 <= i < j < |t| ensures t[i] != t[j] {
      assert t[i] == s[i];
      if j < |s| {
        assert t[j] == s[j];
      }
    }
  }
}
