/**
 * The chapter's verse slots as values, and the coordinate arithmetic of the
 * narration tape: which slots are active, how many frames the chapter holds,
 * and the two mappings between absolute tape frames and chapter-relative frames
 * (frames counted across the placed verses only, in slot order).
 *
 * The reference view is `ChapterFrames`: the tape frames of every active verse,
 * one verse after the other. A chapter-relative position is an index into it.
 */
module Chapter {
  import opened Wrappers
  import opened Markers
  import opened VerseNodes

  // ---------------------------------------------------------------------------
  // Active verses and totals

  /** `activeVerses`: the placed slots, in slot order; well-formed slots give well-formed active verses. */
  function ActiveVerses(vs: seq<Verse>): (r: seq<Verse>)
    ensures |r| <= |vs|
  {
    if vs == [] then [] else (if vs[0].placed then [vs[0]] else []) + ActiveVerses(vs[1..])
  }

  /** The active verses are exactly the placed slots. */
  lemma {:induction false} ActiveMembers(vs: seq<Verse>)
    ensures forall v :: v in ActiveVerses(vs) <==> v in vs && v.placed
  {
    if vs != [] {
      ActiveMembers(vs[1..]);
      assert vs == [vs[0]] + vs[1..];
      ConsSlot(vs[0], vs[1..]);
    }
  }

  /** Filtering keeps slot order: the active verses of a concatenation are concatenated. */
  lemma {:induction false} ActiveVersesAppend(a: seq<Verse>, b: seq<Verse>)
    ensures ActiveVerses(a + b) == ActiveVerses(a) + ActiveVerses(b)
  {
    if a == [] {
      assert a + b == b;
    } else {
      assert (a + b)[0] == a[0] && (a + b)[1..] == a[1..] + b;
      ActiveVersesAppend(a[1..], b);
    }
  }

  /** One slot in front of a list: how the filters and sums of this module unfold. */
  lemma {:induction false} ConsSlot(v: Verse, rest: seq<Verse>)
    ensures ActiveVerses([v] + rest) == (if v.placed then [v] else []) + ActiveVerses(rest)
    ensures SumLengths([v] + rest) == v.Length() + SumLengths(rest)
    ensures ChapterFrames([v] + rest) == v.Frames() + ChapterFrames(rest)
  {
    assert ([v] + rest)[0] == v && ([v] + rest)[1..] == rest;
  }

  /** The chapter's total over one slot in front of a list. */
  lemma {:induction false} ConsTotal(v: Verse, rest: seq<Verse>)
    ensures TotalFrames([v] + rest) == (if v.placed then v.Length() else 0) + TotalFrames(rest)
    ensures ActiveVerses([v] + rest) == if v.placed then [v] + ActiveVerses(rest) else ActiveVerses(rest)
  {
    ConsActive(v, rest);
    ConsSlot(v, ActiveVerses(rest));
  }

  /** The active verses of one slot in front of a list. */
  lemma {:induction false} ConsActive(v: Verse, rest: seq<Verse>)
    ensures ActiveVerses([v] + rest) == if v.placed then [v] + ActiveVerses(rest) else ActiveVerses(rest)
  {
    ConsSlot(v, rest);
    if v.placed {
      ConsSlot(v, ActiveVerses(rest));
    } else {
      assert [] + ActiveVerses(rest) == ActiveVerses(rest);
    }
  }

  /** A single sector's sums. */
  lemma {:induction false} SingleSector(s: Sector)
    ensures SectorsLength([s]) == s.Length()
    ensures SectorFrames([s]) == s.Frames()
  {
    assert [s][1..] == [];
  }

  function SumLengths(vs: seq<Verse>): int {
    if vs == [] then 0 else vs[0].Length() + SumLengths(vs[1..])
  }

  /** `totalFrames`: the frames of the active verses only, as many as the chapter's frames. */
  function TotalFrames(vs: seq<Verse>): (n: int)
    ensures AllNonEmpty(vs) ==> 0 <= n == |ChapterFrames(ActiveVerses(vs))|
  {
    ActiveFramesCounted(vs);
    SumLengths(ActiveVerses(vs))
  }

  lemma {:induction false} ActiveFramesCounted(vs: seq<Verse>)
    ensures AllNonEmpty(vs) ==> 0 <= SumLengths(ActiveVerses(vs)) == |ChapterFrames(ActiveVerses(vs))|
  {
    if AllNonEmpty(vs) {
      AllWellFormedActiveNonEmpty(vs);
      ChapterFramesLength(ActiveVerses(vs));
      SumLengthsNonNegative(ActiveVerses(vs));
    }
  }

  /** `versesWithRecordings()`: one flag per slot. */
  function VersesWithRecordings(vs: seq<Verse>): (r: seq<bool>)
    ensures |r| == |vs|
    ensures forall i :: 0 <= i < |vs| ==> (r[i] <==> vs[i].placed && vs[i].Length() > 0)
  {
    seq(|vs|, i requires 0 <= i < |vs| => vs[i].placed && vs[i].Length() > 0)
  }

  /** Every slot's sectors are non-empty ranges. */
  ghost predicate AllNonEmpty(vs: seq<Verse>) {
    forall i :: 0 <= i < |vs| ==> NonEmptySectors(vs[i].sectors)
  }

  /** Every slot is well formed. */
  ghost predicate AllWellFormed(vs: seq<Verse>) {
    forall i :: 0 <= i < |vs| ==> vs[i].WellFormed()
  }

  /** Every placed slot holds audio. */
  ghost predicate AllRecorded(vs: seq<Verse>) {
    forall i :: 0 <= i < |vs| ==> vs[i].Recorded()
  }

  lemma {:induction false} AllWellFormedNonEmpty(vs: seq<Verse>)
    requires AllWellFormed(vs)
    ensures AllNonEmpty(vs) && AllNonEmpty(ActiveVerses(vs))
  {
    ActiveMembers(vs);
    forall v | v in ActiveVerses(vs) ensures NonEmptySectors(v.sectors) {
      var i :| 0 <= i < |vs| && vs[i] == v;
    }
  }

  lemma {:induction false} SumLengthsNonNegative(vs: seq<Verse>)
    requires AllNonEmpty(vs)
    ensures SumLengths(vs) >= 0
  {
    if vs != [] {
      FramesLength(vs[0].sectors);
      SumLengthsNonNegative(vs[1..]);
    }
  }

  lemma {:induction false} SumLengthsAppend(a: seq<Verse>, b: seq<Verse>)
    ensures SumLengths(a + b) == SumLengths(a) + SumLengths(b)
  {
    if a == [] {
      assert a + b == b;
    } else {
      assert (a + b)[0] == a[0] && (a + b)[1..] == a[1..] + b;
      SumLengthsAppend(a[1..], b);
    }
  }

  /** A chapter has no audio exactly when no slot reports a recording. */
  lemma {:induction false} NoRecordingsIffEmpty(vs: seq<Verse>)
    requires AllNonEmpty(vs)
    ensures TotalFrames(vs) == 0 <==> forall i :: 0 <= i < |vs| ==> !VersesWithRecordings(vs)[i]
  {
    if vs != [] {
      var v, rest := vs[0], vs[1..];
      assert AllNonEmpty(rest) by {
        forall i | 0 <= i < |rest| ensures NonEmptySectors(rest[i].sectors) {
          assert rest[i] == vs[i + 1];
        }
      }
      NoRecordingsIffEmpty(rest);
      NoRecordingsStep(vs);
    }
  }

  /** The inductive step of `NoRecordingsIffEmpty`, from the slots after the first to all of them. */
  lemma {:induction false} NoRecordingsStep(vs: seq<Verse>)
    requires vs != [] && AllNonEmpty(vs[1..]) && NonEmptySectors(vs[0].sectors)
    requires TotalFrames(vs[1..]) == 0 <==> forall i :: 0 <= i < |vs| - 1 ==> !VersesWithRecordings(vs[1..])[i]
    ensures TotalFrames(vs) == 0 <==> forall i :: 0 <= i < |vs| ==> !VersesWithRecordings(vs)[i]
  {
    var v, rest := vs[0], vs[1..];
    assert vs == [v] + rest;
    ConsTotal(v, rest);
    FramesLength(v.sectors);
    AllWellFormedActiveNonEmpty(rest);
    SumLengthsNonNegative(ActiveVerses(rest));
    var r, r' := VersesWithRecordings(vs), VersesWithRecordings(rest);
    forall i | 1 <= i < |vs| ensures r[i] == r'[i - 1] {
      assert rest[i - 1] == vs[i];
    }
    assert (forall i :: 0 <= i < |vs| ==> !r[i]) <==> !r[0] && forall i :: 0 <= i < |vs| - 1 ==> !r'[i];
  }

  lemma {:induction false} AllWellFormedActiveNonEmpty(vs: seq<Verse>)
    requires AllNonEmpty(vs)
    ensures AllNonEmpty(ActiveVerses(vs))
  {
    ActiveMembers(vs);
    forall v | v in ActiveVerses(vs) ensures NonEmptySectors(v.sectors) {
      var i :| 0 <= i < |vs| && vs[i] == v;
    }
  }

  // ---------------------------------------------------------------------------
  // The chapter's frames

  /** The tape frames of the active verses, verse after verse: chapter-relative index `k` is frame `ChapterFrames(a)[k]`. */
  ghost function ChapterFrames(active: seq<Verse>): seq<int> {
    if active == [] then [] else active[0].Frames() + ChapterFrames(active[1..])
  }

  lemma {:induction false} ChapterFramesAppend(a: seq<Verse>, b: seq<Verse>)
    ensures ChapterFrames(a + b) == ChapterFrames(a) + ChapterFrames(b)
  {
    if a == [] {
      assert a + b == b;
    } else {
      assert (a + b)[0] == a[0] && (a + b)[1..] == a[1..] + b;
      ChapterFramesAppend(a[1..], b);
    }
  }

  lemma {:induction false} ChapterFramesLength(active: seq<Verse>)
    requires AllNonEmpty(active)
    ensures |ChapterFrames(active)| == SumLengths(active)
  {
    if active != [] {
      FramesLength(active[0].sectors);
      ChapterFramesLength(active[1..]);
    }
  }

  lemma {:induction false} SectorFramesAppend(a: seq<Sector>, b: seq<Sector>)
    ensures SectorFrames(a + b) == SectorFrames(a) + SectorFrames(b)
  {
    if a == [] {
      assert a + b == b;
    } else {
      assert (a + b)[0] == a[0] && (a + b)[1..] == a[1..] + b;
      SectorFramesAppend(a[1..], b);
    }
  }

  /** `findVerse`: the index of the first active verse holding `f`, or `|active|` when none does. */
  function FindVerse(active: seq<Verse>, f: int): (k: nat)
    ensures k <= |active|
    ensures k < |active| ==> active[k].Contains(f)
    ensures forall j :: 0 <= j < k ==> !active[j].Contains(f)
  {
    if active == [] then 0 else if active[0].Contains(f) then 0 else 1 + FindVerse(active[1..], f)
  }

  /** Some active verse holds frame `f`. */
  ghost predicate InChapter(active: seq<Verse>, f: int) {
    exists i :: 0 <= i < |active| && active[i].Contains(f)
  }

  /**
   * `audioLocationToLocationInChapter(f)`: the lengths of the active verses before
   * the first one holding `f`, plus `f`'s position inside it; 0 when none holds `f`.
   */
  function LocationInChapter(active: seq<Verse>, f: int): (loc: int)
    ensures (forall j :: 0 <= j < |active| ==> !active[j].Contains(f)) ==> loc == 0
    ensures AllNonEmpty(active) ==> 0 <= loc <= |ChapterFrames(active)|
  {
    HolderOffsetBounds(active, f);
    var k := FindVerse(active, f);
    if k == |active| then 0 else SumLengths(active[..k]) + active[k].FramesToPosition(f)
  }

  /**
   * `relativeChapterToAbsolute(k)`: frame `k` of the chapter, with the source's
   * edge cases: for `k <= 0` the first active verse's first frame (or, without
   * active verses, 0 on an empty tape and one past the tape's end otherwise), and
   * past the chapter's end the last active verse's last frame (or the tape length).
   */
  ghost function RelativeToAbsolute(active: seq<Verse>, tapeFrames: int, k: int): (f: int)
    ensures active != [] && AllNonEmpty(active) && (forall i :: 0 <= i < |active| ==> active[i].sectors != []) ==>
      InChapter(active, f)
  {
    if k <= 0 && active == [] then (if tapeFrames == 0 then 0 else tapeFrames + 1)
    else if k <= 0 then
      EndsInChapter(active, 0);
      active[0].FirstFrame()
    else if k < |ChapterFrames(active)| then
      FindVerseIffInChapter(active, ChapterFrames(active)[k]);
      ChapterFrames(active)[k]
    else if active != [] then
      EndsInChapter(active, |active| - 1);
      active[|active| - 1].LastFrame()
    else tapeFrames
  }

  /** A recorded active verse holds its first and last frames. */
  lemma {:induction false} EndsInChapter(active: seq<Verse>, i: int)
    requires 0 <= i < |active|
    ensures NonEmptySectors(active[i].sectors) && active[i].sectors != [] ==>
      InChapter(active, active[i].FirstFrame()) && InChapter(active, active[i].LastFrame())
  {
    if NonEmptySectors(active[i].sectors) && active[i].sectors != [] {
      FirstFrameIsPositionZero(active[i]);
      LastFrameInVerse(active[i]);
    }
  }

  /** Before the first verse holding `f` lie as many chapter frames as those verses' lengths, and `f`'s offset in its verse is one of that verse's frames. */
  lemma {:induction false} HolderOffsetBounds(active: seq<Verse>, f: int)
    ensures AllNonEmpty(active) && FindVerse(active, f) < |active| ==>
      var k := FindVerse(active, f);
      0 <= SumLengths(active[..k]) && 0 <= active[k].FramesToPosition(f)
      && SumLengths(active[..k]) + active[k].FramesToPosition(f) < |ChapterFrames(active)|
  {
    var k := FindVerse(active, f);
    if AllNonEmpty(active) && k < |active| {
      FramesBeforeFirstHolder(active, f);
      ChapterFramesAround(active, k);
      OffsetInLocates(active[k].sectors, f);
    }
  }

  lemma {:induction false} NotInVersesNotInFrames(active: seq<Verse>, f: int)
    requires forall j :: 0 <= j < |active| ==> !active[j].Contains(f)
    ensures f !in ChapterFrames(active)
  {
    if active != [] {
      InSectorsIffInFrames(active[0].sectors, f);
      NotInVersesNotInFrames(active[1..], f);
    }
  }

  lemma {:induction false} FindVerseIffInChapter(active: seq<Verse>, f: int)
    ensures FindVerse(active, f) < |active| <==> InChapter(active, f)
    ensures InChapter(active, f) <==> f in ChapterFrames(active)
  {
    if FindVerse(active, f) == |active| {
      NotInVersesNotInFrames(active, f);
    } else {
      var k := FindVerse(active, f);
      ChapterFramesAround(active, k);
      InSectorsIffInFrames(active[k].sectors, f);
    }
  }

  /** The chapter's frames around the `k`-th active verse. */
  lemma {:induction false} ChapterFramesAround(active: seq<Verse>, k: int)
    requires 0 <= k < |active|
    ensures ChapterFrames(active) == ChapterFrames(active[..k]) + active[k].Frames() + ChapterFrames(active[k + 1..])
  {
    assert active == active[..k] + ([active[k]] + active[k + 1..]);
    ChapterFramesAppend(active[..k], [active[k]] + active[k + 1..]);
    ConsSlot(active[k], active[k + 1..]);
  }

  /** The location in the chapter of a frame is the index of its first occurrence among the chapter's frames. */
  lemma {:induction false} LocationIsFirstOccurrence(active: seq<Verse>, f: int)
    requires AllNonEmpty(active)
    requires InChapter(active, f)
    ensures 0 <= LocationInChapter(active, f) < |ChapterFrames(active)|
    ensures ChapterFrames(active)[LocationInChapter(active, f)] == f
    ensures forall j :: 0 <= j < LocationInChapter(active, f) ==> ChapterFrames(active)[j] != f
  {
    FindVerseIffInChapter(active, f);
    var k := FindVerse(active, f);
    ChapterFramesAround(active, k);
    FramesBeforeFirstHolder(active, f);
    OffsetInLocates(active[k].sectors, f);
    var a, b, c := ChapterFrames(active[..k]), active[k].Frames(), ChapterFrames(active[k + 1..]);
    FirstOccurrenceInMiddle(a, b, c, f, active[k].FramesToPosition(f));
    assert LocationInChapter(active, f) == |a| + active[k].FramesToPosition(f);
    assert ChapterFrames(active) == a + b + c;
  }

  /** The first occurrence of `f` in `b`, when `a` does not hold `f`, is its first occurrence in `a + b + c`, `|a|` further on. */
  lemma {:induction false} FirstOccurrenceInMiddle(a: seq<int>, b: seq<int>, c: seq<int>, f: int, q: int)
    requires f !in a && 0 <= q < |b| && b[q] == f
    requires forall j :: 0 <= j < q ==> b[j] != f
    ensures (a + b + c)[|a| + q] == f
    ensures forall j :: 0 <= j < |a| + q ==> (a + b + c)[j] != f
  {
    forall j | 0 <= j < |a| + q ensures (a + b + c)[j] != f {
      if j < |a| {
        assert (a + b + c)[j] == a[j];
      } else {
        assert (a + b + c)[j] == b[j - |a|];
      }
    }
  }

  /** The frames of the active verses before the first one holding `f`: as many as their lengths, and none of them `f`. */
  lemma {:induction false} FramesBeforeFirstHolder(active: seq<Verse>, f: int)
    requires AllNonEmpty(active)
    ensures |ChapterFrames(active[..FindVerse(active, f)])| == SumLengths(active[..FindVerse(active, f)])
    ensures f !in ChapterFrames(active[..FindVerse(active, f)])
  {
    var pre := active[..FindVerse(active, f)];
    assert AllNonEmpty(pre) by {
      forall i | 0 <= i < |pre| ensures NonEmptySectors(pre[i].sectors) {
        assert pre[i] == active[i];
      }
    }
    ChapterFramesLength(pre);
    NotInVersesNotInFrames(pre, f);
  }

  /** Chapter position 0 is the first frame of the first active verse, when that verse holds audio. */
  lemma {:induction false} FirstChapterFrame(active: seq<Verse>)
    requires AllNonEmpty(active)
    requires active != [] && active[0].sectors != []
    ensures |ChapterFrames(active)| > 0 && ChapterFrames(active)[0] == active[0].FirstFrame()
  {
    FirstFrameIsPositionZero(active[0]);
  }

  /**
   * Converting a frame that an active verse holds to the chapter's coordinates and
   * back yields the frame itself.
   */
  lemma {:induction false} RelativeOfLocation(active: seq<Verse>, tapeFrames: int, f: int)
    requires AllNonEmpty(active)
    requires active != [] ==> active[0].sectors != []
    requires InChapter(active, f)
    ensures RelativeToAbsolute(active, tapeFrames, LocationInChapter(active, f)) == f
  {
    LocationIsFirstOccurrence(active, f);
    if LocationInChapter(active, f) == 0 {
      FirstChapterFrame(active);
    }
  }

  /** No tape frame belongs to two places of the chapter. */
  ghost predicate DistinctFrames(active: seq<Verse>) {
    forall i, j :: 0 <= i < j < |ChapterFrames(active)| ==> ChapterFrames(active)[i] != ChapterFrames(active)[j]
  }

  /**
   * When no frame is shared, the other direction holds too: every chapter position
   * maps to a frame whose location in the chapter is that position.
   */
  lemma {:induction false} LocationOfRelative(active: seq<Verse>, tapeFrames: int, k: int)
    requires AllNonEmpty(active)
    requires active != [] ==> active[0].sectors != []
    requires DistinctFrames(active)
    requires 0 <= k < |ChapterFrames(active)|
    ensures InChapter(active, RelativeToAbsolute(active, tapeFrames, k))
    ensures LocationInChapter(active, RelativeToAbsolute(active, tapeFrames, k)) == k
  {
    FirstChapterFrame(active);
    var f := ChapterFrames(active)[k];
    assert RelativeToAbsolute(active, tapeFrames, k) == f;
    FindVerseIffInChapter(active, f);
    LocationIsFirstOccurrence(active, f);
  }

  // ---------------------------------------------------------------------------
  // Marker lookup and publication

  /** `getRangeOfMarker(m)`: the first and last frame of the first active verse whose label is `m`'s label. */
  function GetRangeOfMarker(active: seq<Verse>, m: Marker): (r: Option<(int, int)>)
    ensures r.None? <==> forall i :: 0 <= i < |active| ==> active[i].marker.Label() != m.Label()
    ensures r.Some? ==> exists i :: (0 <= i < |active| && active[i].marker.Label() == m.Label() &&
                                     (forall j :: 0 <= j < i ==> active[j].marker.Label() != m.Label()) &&
                                     r.value == (active[i].FirstFrame(), active[i].LastFrame()))
  {
    var k := FirstWithLabel(active, m.Label());
    if k == |active| then None else Some((active[k].FirstFrame(), active[k].LastFrame()))
  }

  /** `find { it.marker.label == label }`: the index of the first verse with that label, or the length when there is none. */
  function FirstWithLabel(active: seq<Verse>, name: string): (k: nat)
    ensures k <= |active|
    ensures forall j :: 0 <= j < k ==> active[j].marker.Label() != name
    ensures k < |active| ==> active[k].marker.Label() == name
  {
    if active == [] then 0
    else if active[0].marker.Label() == name then 0
    else 1 + FirstWithLabel(active[1..], name)
  }

  /** The range of a well-formed verse spans all of its audio. */
  lemma {:induction false} RangeSpansVerse(ss: seq<Sector>)
    requires WellFormedSectors(ss) && ss != []
    ensures forall x :: x in SectorFrames(ss) ==> ss[0].first <= x <= ss[|ss| - 1].last
  {
    if |ss| > 1 {
      RangeSpansVerse(ss[1..]);
    }
    assert SectorFrames(ss) == ss[0].Frames() + SectorFrames(ss[1..]);
  }

  /** The markers published after an update: each active verse's marker moved to its location in the chapter. */
  function PublishedMarkers(active: seq<Verse>): (r: seq<Marker>)
    ensures |r| == |active|
    ensures forall k :: 0 <= k < |active| ==>
      r[k].Label() == active[k].marker.Label() && r[k].Kind() == active[k].marker.Kind()
  {
    seq(|active|, k requires 0 <= k < |active| => active[k].CopyMarker(LocationInChapter(active, active[k].FirstFrame())))
  }

  /** Verse `k`'s published location is where it starts in the chapter: the length of the verses before it. */
  lemma {:induction false} PublishedLocation(active: seq<Verse>, k: int)
    requires AllNonEmpty(active)
    requires forall i :: 0 <= i < |active| ==> active[i].sectors != []
    requires DistinctFrames(active)
    requires 0 <= k < |active|
    ensures PublishedMarkers(active)[k].location == SumLengths(active[..k])
  {
    var f := active[k].FirstFrame();
    FirstFrameIsPositionZero(active[k]);
    ChapterFramesAround(active, k);
    assert AllNonEmpty(active[..k]) by {
      forall i | 0 <= i < k ensures NonEmptySectors(active[..k][i].sectors) {
        assert active[..k][i] == active[i];
      }
    }
    ChapterFramesLength(active[..k]);
    var p := SumLengths(active[..k]);
    assert ChapterFrames(active)[p] == f;
    FindVerseIffInChapter(active, f);
    LocationIsFirstOccurrence(active, f);
  }

  // ---------------------------------------------------------------------------
  // Initial slots

  /** How many title markers precede the verse markers: a chapter title, and a book title in chapter 1. */
  function TitleCount(chapterSort: int): nat {
    if chapterSort == 1 then 2 else 1
  }

  /** `insertTitles`: a chapter title in front of the verse markers, and a book title before it for chapter 1. */
  function InsertTitles(verseMarkers: seq<Marker>, chapterSort: int, bookSlug: string): (r: seq<Marker>)
    ensures |r| == TitleCount(chapterSort) + |verseMarkers|
    ensures r[TitleCount(chapterSort) - 1] == ChapterMarker(chapterSort, 0)
    ensures r[0].BookMarker? <==> chapterSort == 1
    ensures chapterSort == 1 ==> r[0] == BookMarker(bookSlug, 0)
  {
    var withChapter := [ChapterMarker(chapterSort, 0)] + verseMarkers;
    if chapterSort == 1 then [BookMarker(bookSlug, 0)] + withChapter else withChapter
  }

  /** `initializeActiveVerses`: an unplaced slot per marker, one verse marker per chunk at location 0. */
  function InitialVerses(chunks: seq<(int, int)>, chapterSort: int, bookSlug: string): (r: seq<Verse>)
    ensures |r| == TitleCount(chapterSort) + |chunks|
    ensures forall i :: 0 <= i < |r| ==> !r[i].placed && r[i].sectors == []
    ensures forall i :: 0 <= i < |chunks| ==>
      r[TitleCount(chapterSort) + i].marker == VerseMarker(chunks[i].0, chunks[i].1, 0)
    ensures r[TitleCount(chapterSort) - 1].marker == ChapterMarker(chapterSort, 0)
    ensures chapterSort == 1 <==> r[0].marker.BookMarker?
  {
    var verseMarkers := seq(|chunks|, i requires 0 <= i < |chunks| => VerseMarker(chunks[i].0, chunks[i].1, 0));
    var markers := InsertTitles(verseMarkers, chapterSort, bookSlug);
    var r := seq(|markers|, i requires 0 <= i < |markers| => Verse(false, markers[i], []));
    assert forall i :: 0 <= i < |chunks| ==> r[TitleCount(chapterSort) + i].marker == VerseMarker(chunks[i].0, chunks[i].1, 0) by {
      InsertTitlesKeepsVerses(verseMarkers, chapterSort, bookSlug);
      forall i | 0 <= i < |chunks| ensures r[TitleCount(chapterSort) + i].marker == VerseMarker(chunks[i].0, chunks[i].1, 0) {
        assert markers[TitleCount(chapterSort) + i] == verseMarkers[i];
      }
    }
    r
  }

  /** The verse markers follow the titles, unchanged and in order. */
  lemma {:induction false} InsertTitlesKeepsVerses(verseMarkers: seq<Marker>, chapterSort: int, bookSlug: string)
    ensures forall i :: 0 <= i < |verseMarkers| ==>
      InsertTitles(verseMarkers, chapterSort, bookSlug)[TitleCount(chapterSort) + i] == verseMarkers[i]
  {
  }

  /** A fresh chapter has no active verse, no audio and no recordings. */
  lemma {:induction false} NoActiveVerses(vs: seq<Verse>)
    requires forall i :: 0 <= i < |vs| ==> !vs[i].placed
    ensures ActiveVerses(vs) == [] && TotalFrames(vs) == 0
  {
    if vs != [] {
      NoActiveVerses(vs[1..]);
    }
  }

  // ---------------------------------------------------------------------------
  // Restoring from the serialized verses

  /** `loadFromSerializedVerses`: every slot cleared, then slot `i` replaced by the `i`-th restored node when there is one. */
  function LoadedVerses(vs: seq<Verse>, nodes: seq<Verse>): (r: seq<Verse>)
    ensures |r| == |vs|
    ensures forall i :: 0 <= i < |vs| ==> r[i] == if i < |nodes| then nodes[i] else Verse(false, vs[i].marker, [])
  {
    seq(|vs|, i requires 0 <= i < |vs| => if i < |nodes| then nodes[i] else Verse(false, vs[i].marker, []))
  }

  // ---------------------------------------------------------------------------
  // Trimming

  /** `trimActiveVerses`: each active verse gets the single sector `[start, start + length - 1]`, `start` running on from `start`. */
  function TrimFrom(vs: seq<Verse>, start: int): (r: seq<Verse>)
    ensures |r| == |vs|
  {
    if vs == [] then []
    else if vs[0].placed then
      [vs[0].(sectors := [Sector(start, start + vs[0].Length() - 1)])] + TrimFrom(vs[1..], start + vs[0].Length())
    else [vs[0]] + TrimFrom(vs[1..], start)
  }

  /** One step of `TrimFrom`: the head slot, then the rest trimmed from where the head ends. */
  lemma {:induction false} TrimFromHead(vs: seq<Verse>, start: int)
    requires vs != []
    ensures vs[0].placed ==>
      TrimFrom(vs, start) == [vs[0].(sectors := [Sector(start, start + vs[0].Length() - 1)])] + TrimFrom(vs[1..], start + vs[0].Length())
    ensures !vs[0].placed ==> TrimFrom(vs, start) == [vs[0]] + TrimFrom(vs[1..], start)
  {
  }

  /** After trimming, slot `i` keeps its flag, marker and length; an active one holds one sector starting where the active verses before it end. */
  lemma {:induction false} TrimFromSlot(vs: seq<Verse>, start: int, i: int)
    requires 0 <= i < |vs|
    ensures TrimFrom(vs, start)[i].placed == vs[i].placed
    ensures TrimFrom(vs, start)[i].marker == vs[i].marker
    ensures !vs[i].placed ==> TrimFrom(vs, start)[i] == vs[i]
    ensures vs[i].placed ==>
              TrimFrom(vs, start)[i].sectors == [Sector(start + TotalFrames(vs[..i]), start + TotalFrames(vs[..i]) + vs[i].Length() - 1)]
    ensures TrimFrom(vs, start)[i].Length() == vs[i].Length()
  {
    if i == 0 {
      TrimFromFirstSlot(vs, start);
    } else {
      TrimFromSlot(vs[1..], if vs[0].placed then start + vs[0].Length() else start, i - 1);
      TrimFromIndex(vs, start, i);
      TotalPrefixStep(vs, i);
    }
  }

  /** `TrimFromSlot` for the head slot, which no active verse precedes. */
  lemma {:induction false} TrimFromFirstSlot(vs: seq<Verse>, start: int)
    requires vs != []
    ensures TrimFrom(vs, start)[0].placed == vs[0].placed
    ensures TrimFrom(vs, start)[0].marker == vs[0].marker
    ensures !vs[0].placed ==> TrimFrom(vs, start)[0] == vs[0]
    ensures vs[0].placed ==>
              TrimFrom(vs, start)[0].sectors == [Sector(start + TotalFrames(vs[..0]), start + TotalFrames(vs[..0]) + vs[0].Length() - 1)]
    ensures TrimFrom(vs, start)[0].Length() == vs[0].Length()
  {
    assert vs[..0] == [];
    TrimFromHead(vs, start);
    SingleSector(Sector(start, start + vs[0].Length() - 1));
  }

  /** Slot `i > 0` of a trimmed list is slot `i - 1` of its tail, trimmed from where the head ends. */
  lemma {:induction false} TrimFromIndex(vs: seq<Verse>, start: int, i: int)
    requires 0 < i < |vs|
    ensures TrimFrom(vs, start)[i] == TrimFrom(vs[1..], if vs[0].placed then start + vs[0].Length() else start)[i - 1]
  {
    TrimFromHead(vs, start);
  }

  /** The total of the first `i > 0` slots, split after the first slot. */
  lemma {:induction false} TotalPrefixStep(vs: seq<Verse>, i: int)
    requires 0 < i <= |vs|
    ensures TotalFrames(vs[..i]) == (if vs[0].placed then vs[0].Length() else 0) + TotalFrames(vs[1..][..i - 1])
  {
    assert vs[..i] == [vs[0]] + vs[1..][..i - 1];
    ConsTotal(vs[0], vs[1..][..i - 1]);
  }

  /** Trimming keeps every slot's length and therefore the chapter's total. */
  lemma {:induction false} TrimKeepsTotal(vs: seq<Verse>, start: int)
    ensures TotalFrames(TrimFrom(vs, start)) == TotalFrames(vs)
    ensures |ActiveVerses(TrimFrom(vs, start))| == |ActiveVerses(vs)|
  {
    TrimKeepsActiveLengths(vs, start);
  }

  /** The inductive core of `TrimKeepsTotal`, over the active verses' lengths. */
  lemma {:induction false} TrimKeepsActiveLengths(vs: seq<Verse>, start: int)
    ensures SumLengths(ActiveVerses(TrimFrom(vs, start))) == SumLengths(ActiveVerses(vs))
    ensures |ActiveVerses(TrimFrom(vs, start))| == |ActiveVerses(vs)|
  {
    if vs != [] {
      var v, rest := vs[0], vs[1..];
      var next := if v.placed then start + v.Length() else start;
      TrimKeepsActiveLengths(rest, next);
      var r := TrimFrom(rest, next);
      var t := if v.placed then v.(sectors := [Sector(start, start + v.Length() - 1)]) else v;
      assert TrimFrom(vs, start) == [t] + r;
      assert vs == [v] + rest;
      ConsActive(t, r);
      ConsActive(v, rest);
      if v.placed {
        ConsSlot(t, ActiveVerses(r));
        ConsSlot(v, ActiveVerses(rest));
      }
      SingleSector(Sector(start, start + v.Length() - 1));
      assert t.Length() == v.Length();
    }
  }

  /** Every slot of the list is placed, as in a list of active verses. */
  ghost predicate AllPlaced(a: seq<Verse>) {
    forall i :: 0 <= i < |a| ==> a[i].placed
  }

  /** Trimming and filtering commute: the active verses of the trimmed slots are the active verses, trimmed. */
  lemma {:induction false} TrimCommutesWithActive(vs: seq<Verse>, start: int)
    ensures ActiveVerses(TrimFrom(vs, start)) == TrimFrom(ActiveVerses(vs), start)
  {
    if vs != [] {
      var v, rest := vs[0], vs[1..];
      assert vs == [v] + rest;
      TrimFromHead(vs, start);
      ConsActive(v, rest);
      if v.placed {
        var next := start + v.Length();
        var t := v.(sectors := [Sector(start, next - 1)]);
        TrimCommutesWithActive(rest, next);
        ConsActive(t, TrimFrom(rest, next));
        var a := [v] + ActiveVerses(rest);
        assert a[0] == v && a[1..] == ActiveVerses(rest);
        TrimFromHead(a, start);
      } else {
        TrimCommutesWithActive(rest, start);
        ConsActive(v, TrimFrom(rest, start));
      }
    }
  }

  /** Trimming a list of active verses lays their frames out as the run `start, start + 1, ...`. */
  lemma {:induction false} TrimmedActiveRun(a: seq<Verse>, start: int)
    requires AllPlaced(a) && AllNonEmpty(a)
    ensures SumLengths(a) >= 0
    ensures ChapterFrames(TrimFrom(a, start)) == Run(start, SumLengths(a))
  {
    if a == [] {
      assert Run(start, 0) == [];
    } else {
      var v, rest := a[0], a[1..];
      assert AllPlaced(rest) && AllNonEmpty(rest) by {
        forall i | 0 <= i < |rest| ensures rest[i].placed && NonEmptySectors(rest[i].sectors) {
          assert rest[i] == a[i + 1];
        }
      }
      TrimmedActiveRun(rest, start + v.Length());
      TrimmedActiveStep(a, start);
    }
  }

  /** The inductive step of `TrimmedActiveRun`: a run after the head verse extends to a run from `start`. */
  lemma {:induction false} TrimmedActiveStep(a: seq<Verse>, start: int)
    requires a != [] && a[0].placed && NonEmptySectors(a[0].sectors)
    requires SumLengths(a[1..]) >= 0
    requires ChapterFrames(TrimFrom(a[1..], start + a[0].Length())) == Run(start + a[0].Length(), SumLengths(a[1..]))
    ensures SumLengths(a) >= 0
    ensures ChapterFrames(TrimFrom(a, start)) == Run(start, SumLengths(a))
  {
    var v, rest := a[0], a[1..];
    TrimFromHead(a, start);
    TrimmedHeadFrames(v, start, TrimFrom(rest, start + v.Length()));
    RunAppend(start, v.Length(), SumLengths(rest));
  }

  /** A verse given the single sector that starts at `start`, in front of a list: its frames are the run from `start`. */
  lemma {:induction false} TrimmedHeadFrames(v: Verse, start: int, r: seq<Verse>)
    requires NonEmptySectors(v.sectors)
    ensures v.Length() >= 0
    ensures ChapterFrames([v.(sectors := [Sector(start, start + v.Length() - 1)])] + r) == Run(start, v.Length()) + ChapterFrames(r)
  {
    FramesLength(v.sectors);
    var s := Sector(start, start + v.Length() - 1);
    ConsSlot(v.(sectors := [s]), r);
    SingleSector(s);
    SectorFramesAreRun(s);
  }

  /** After trimming, the chapter's frames are the tape frames `start, start + 1, ...`: the tape holds no gaps and no stale audio. */
  lemma {:induction false} TrimmedFramesContiguous(vs: seq<Verse>, start: int)
    requires AllNonEmpty(vs)
    ensures TotalFrames(vs) >= 0
    ensures ChapterFrames(ActiveVerses(TrimFrom(vs, start))) == Run(start, TotalFrames(vs))
  {
    var a := ActiveVerses(vs);
    ActiveMembers(vs);
    assert AllPlaced(a) by {
      forall i | 0 <= i < |a| ensures a[i].placed {
        assert a[i] in a;
      }
    }
    AllWellFormedActiveNonEmpty(vs);
    TrimCommutesWithActive(vs, start);
    TrimmedActiveRun(a, start);
  }

  /** After trimming, no tape frame belongs to two places of the chapter. */
  lemma {:induction false} TrimmedFramesDistinct(vs: seq<Verse>, start: int)
    requires AllNonEmpty(vs)
    ensures DistinctFrames(ActiveVerses(TrimFrom(vs, start)))
  {
    TrimmedFramesContiguous(vs, start);
    var cf := ChapterFrames(ActiveVerses(TrimFrom(vs, start)));
    forall i, j | 0 <= i < j < |cf| ensures cf[i] != cf[j] {
      assert cf[i] == start + i && cf[j] == start + j;
    }
  }

  /** Trimming keeps the slots well formed when every placed slot holds audio. */
  lemma {:induction false} TrimKeepsWellFormed(vs: seq<Verse>, start: int)
    requires AllWellFormed(vs) && AllRecorded(vs)
    requires start >= 0
    ensures AllWellFormed(TrimFrom(vs, start)) && AllRecorded(TrimFrom(vs, start))
  {
    forall i | 0 <= i < |vs| ensures TrimFrom(vs, start)[i].WellFormed() && TrimFrom(vs, start)[i].Recorded() {
      TrimFromSlot(vs, start, i);
      AllWellFormedNonEmpty(vs);
      FramesLength(vs[i].sectors);
      assert AllNonEmpty(vs[..i]) by {
        forall j | 0 <= j < i ensures NonEmptySectors(vs[..i][j].sectors) {
          assert vs[..i][j] == vs[j];
        }
      }
      AllWellFormedActiveNonEmpty(vs[..i]);
      SumLengthsNonNegative(ActiveVerses(vs[..i]));
    }
  }

  /** When the chapter's frames are `0, 1, 2, ...`, chapter positions and tape frames coincide. */
  lemma {:induction false} IdentityCoordinates(a: seq<Verse>, tapeFrames: int, k: int)
    requires AllNonEmpty(a)
    requires a != [] ==> a[0].sectors != []
    requires forall i :: 0 <= i < |ChapterFrames(a)| ==> ChapterFrames(a)[i] == i
    requires 0 <= k < |ChapterFrames(a)|
    ensures RelativeToAbsolute(a, tapeFrames, k) == k
    ensures LocationInChapter(a, k) == k
  {
    var cf := ChapterFrames(a);
    assert DistinctFrames(a) by {
      forall i, j | 0 <= i < j < |cf| ensures cf[i] != cf[j] {
        assert cf[i] == i && cf[j] == j;
      }
    }
    if k == 0 {
      FirstChapterFrame(a);
    }
    LocationOfRelative(a, tapeFrames, k);
  }

  /** The first active verse of a list in which every placed slot holds audio holds audio. */
  lemma {:induction false} FirstActiveRecorded(vs: seq<Verse>)
    requires AllRecorded(vs)
    ensures ActiveVerses(vs) != [] ==> ActiveVerses(vs)[0].sectors != []
  {
    var a := ActiveVerses(vs);
    if a != [] {
      ActiveMembers(vs);
      assert a[0] in a;
      var i :| 0 <= i < |vs| && vs[i] == a[0];
      assert vs[i].Recorded();
    }
  }

  /** After trimming from 0, a chapter position and its tape frame coincide, both ways. */
  lemma {:induction false} TrimmedCoordinatesCoincide(vs: seq<Verse>, tapeFrames: int, k: int)
    requires AllWellFormed(vs) && AllRecorded(vs)
    requires 0 <= k < TotalFrames(vs)
    ensures RelativeToAbsolute(ActiveVerses(TrimFrom(vs, 0)), tapeFrames, k) == k
    ensures LocationInChapter(ActiveVerses(TrimFrom(vs, 0)), k) == k
  {
    var t := TrimFrom(vs, 0);
    AllWellFormedNonEmpty(vs);
    TrimmedFramesContiguous(vs, 0);
    TrimKeepsWellFormed(vs, 0);
    AllWellFormedNonEmpty(t);
    FirstActiveRecorded(t);
    IdentityCoordinates(ActiveVerses(t), tapeFrames, k);
  }

  // ---------------------------------------------------------------------------
  // Updating the slots after a finalized recording

  /** Two slot lists with the same flags and sectors, whatever their markers. */
  ghost predicate SameLayout(a: seq<Verse>, b: seq<Verse>) {
    |a| == |b| && forall i :: 0 <= i < |a| ==> a[i].placed == b[i].placed && a[i].sectors == b[i].sectors
  }

  lemma {:induction false} SameLayoutActive(a: seq<Verse>, b: seq<Verse>)
    requires SameLayout(a, b)
    ensures SameLayout(ActiveVerses(a), ActiveVerses(b))
  {
    if a != [] {
      assert SameLayout(a[1..], b[1..]) by {
        forall i | 0 <= i < |a| - 1 ensures a[1..][i].placed == b[1..][i].placed && a[1..][i].sectors == b[1..][i].sectors {
          assert a[1..][i] == a[i + 1] && b[1..][i] == b[i + 1];
        }
      }
      SameLayoutActive(a[1..], b[1..]);
      assert a == [a[0]] + a[1..] && b == [b[0]] + b[1..];
      ConsSlot(a[0], a[1..]);
      ConsSlot(b[0], b[1..]);
    }
  }

  lemma {:induction false} SameLayoutSums(a: seq<Verse>, b: seq<Verse>)
    requires SameLayout(a, b)
    ensures SumLengths(a) == SumLengths(b)
  {
    if a != [] {
      SameLayoutSums(a[1..], b[1..]);
    }
  }

  lemma {:induction false} SameLayoutLocation(a: seq<Verse>, b: seq<Verse>, f: int)
    requires SameLayout(a, b)
    ensures LocationInChapter(a, f) == LocationInChapter(b, f)
  {
    if a != [] {
      SameLayoutLocation(a[1..], b[1..], f);
      var k := FindVerse(a, f);
      assert FindVerse(b, f) == k by {
        SameLayoutFind(a, b, f);
      }
      if k < |a| {
        assert SameLayout(a[..k], b[..k]);
        SameLayoutSums(a[..k], b[..k]);
      }
    }
  }

  lemma {:induction false} SameLayoutFind(a: seq<Verse>, b: seq<Verse>, f: int)
    requires SameLayout(a, b)
    ensures FindVerse(a, f) == FindVerse(b, f)
  {
    if a != [] {
      SameLayoutFind(a[1..], b[1..], f);
    }
  }

  /**
   * `updateTotalVerses`, as written: for the `idx`-th active verse, slot `idx`
   * (an index into all slots, not the verse's own slot) becomes a placed node
   * with that verse's marker moved to its current chapter location and with the
   * sectors slot `idx` already had.
   */
  function UpdateFrom(vs: seq<Verse>, active: seq<Verse>, idx: nat): (r: seq<Verse>)
    requires |active| <= |vs|
    ensures |r| == |vs|
    decreases |active| - idx
  {
    if idx >= |active| then vs
    else
      var loc := LocationInChapter(ActiveVerses(vs), active[idx].FirstFrame());
      UpdateFrom(vs[idx := Verse(true, active[idx].CopyMarker(loc), vs[idx].sectors)], active, idx + 1)
  }

  function UpdatedVerses(vs: seq<Verse>): (r: seq<Verse>)
    ensures |r| == |vs|
  {
    UpdateFrom(vs, ActiveVerses(vs), 0)
  }

  /** A verse with its marker moved to where its first frame lies in the chapter. */
  function Relocated(v: Verse, active: seq<Verse>): Verse {
    v.(marker := v.CopyMarker(LocationInChapter(active, v.FirstFrame())))
  }

  /** The placed slots form a prefix of the slot list. */
  ghost predicate PlacedPrefix(vs: seq<Verse>) {
    forall i, j :: 0 <= i < j < |vs| && vs[j].placed ==> vs[i].placed
  }

  lemma {:induction false} PrefixActive(vs: seq<Verse>)
    requires PlacedPrefix(vs)
    ensures ActiveVerses(vs) == vs[..|ActiveVerses(vs)|]
    ensures forall i :: 0 <= i < |vs| ==> (vs[i].placed <==> i < |ActiveVerses(vs)|)
  {
    if vs != [] {
      var v, rest := vs[0], vs[1..];
      assert PlacedPrefix(rest) by {
        forall i, j | 0 <= i < j < |rest| && rest[j].placed ensures rest[i].placed {
          assert rest[i] == vs[i + 1] && rest[j] == vs[j + 1];
        }
      }
      PrefixActive(rest);
      assert vs == [v] + rest;
      ConsSlot(v, rest);
      if v.placed {
        var n := |ActiveVerses(rest)|;
        assert vs[..1 + n] == [v] + rest[..n];
        forall i | 0 <= i < |vs| ensures vs[i].placed <==> i < 1 + n {
          if i > 0 {
            assert vs[i] == rest[i - 1];
          }
        }
      } else {
        assert forall j :: 0 <= j < |vs| ==> !vs[j].placed;
        NoActiveVerses(vs);
      }
    }
  }

  lemma {:induction false} UpdateFromPrefix(vs: seq<Verse>, orig: seq<Verse>, idx: nat)
    requires PlacedPrefix(orig)
    requires |vs| == |orig| && idx <= |ActiveVerses(orig)|
    requires forall i :: 0 <= i < |vs| ==> vs[i] == if i < idx then Relocated(orig[i], ActiveVerses(orig)) else orig[i]
    ensures forall i :: 0 <= i < |vs| ==>
              UpdateFrom(vs, ActiveVerses(orig), idx)[i] == if i < |ActiveVerses(orig)| then Relocated(orig[i], ActiveVerses(orig)) else orig[i]
    decreases |ActiveVerses(orig)| - idx
  {
    var active := ActiveVerses(orig);
    if idx < |active| {
      PrefixStep(vs, orig, idx);
      var next := vs[idx := Relocated(orig[idx], active)];
      forall i | 0 <= i < |next| ensures next[i] == if i < idx + 1 then Relocated(orig[i], active) else orig[i] {
        if i != idx {
          assert next[i] == vs[i];
        }
      }
      UpdateFromPrefix(next, orig, idx + 1);
    }
  }

  /** One step of the update on a prefix of placed slots relocates slot `idx`, the `idx`-th active verse. */
  lemma {:induction false} PrefixStep(vs: seq<Verse>, orig: seq<Verse>, idx: nat)
    requires PlacedPrefix(orig)
    requires |vs| == |orig| && idx < |ActiveVerses(orig)|
    requires forall i :: 0 <= i < |vs| ==> vs[i] == if i < idx then Relocated(orig[i], ActiveVerses(orig)) else orig[i]
    ensures UpdateFrom(vs, ActiveVerses(orig), idx)
         == UpdateFrom(vs[idx := Relocated(orig[idx], ActiveVerses(orig))], ActiveVerses(orig), idx + 1)
  {
    var active := ActiveVerses(orig);
    PrefixActive(orig);
    assert SameLayout(vs, orig);
    SameLayoutActive(vs, orig);
    var f := active[idx].FirstFrame();
    SameLayoutLocation(ActiveVerses(vs), active, f);
    var loc := LocationInChapter(ActiveVerses(vs), f);
    assert active[idx] == orig[idx];
    assert Verse(true, active[idx].CopyMarker(loc), vs[idx].sectors) == Relocated(orig[idx], active);
  }

  /**
   * When the placed slots form a prefix, updating only moves each active verse's
   * marker to the verse's location in the chapter; flags and sectors stay.
   */
  lemma {:induction false} UpdatedVersesOnPrefix(vs: seq<Verse>)
    requires PlacedPrefix(vs)
    ensures SameLayout(UpdatedVerses(vs), vs)
    ensures forall i :: 0 <= i < |vs| ==>
              UpdatedVerses(vs)[i] == if vs[i].placed then Relocated(vs[i], ActiveVerses(vs)) else vs[i]
  {
    PrefixActive(vs);
    UpdateFromPrefix(vs, vs, 0);
  }

  /**
   * Without the prefix, the update is inconsistent: an unplaced slot in front of a
   * recorded verse is marked placed with no audio and takes that verse's label.
   */
  lemma {:induction false} UpdatedVersesOffPrefix()
    ensures var vs := [Verse(false, VerseMarker(1, 1, 0), []), Verse(true, VerseMarker(2, 2, 0), [Sector(0, 9)])];
            && UpdatedVerses(vs)[0].placed && UpdatedVerses(vs)[0].sectors == []
            && UpdatedVerses(vs)[0].marker.Label() == "2"
            && UpdatedVerses(vs)[1] == vs[1]
  {
    var vs := [Verse(false, VerseMarker(1, 1, 0), []), Verse(true, VerseMarker(2, 2, 0), [Sector(0, 9)])];
    assert vs == [vs[0]] + [vs[1]];
    ConsSlot(vs[0], [vs[1]]);
    assert ActiveVerses([vs[1]]) == [vs[1]] by {
      ConsSlot(vs[1], []);
      assert [vs[1]] + [] == [vs[1]];
    }
    var loc := LocationInChapter([vs[1]], 0);
    var u := vs[0 := Verse(true, vs[1].CopyMarker(loc), [])];
    assert UpdatedVerses(vs) == UpdateFrom(u, [vs[1]], 1) == u;
    assert VerseLabel(2, 2) == "2";
  }

  /**
   * What the update does to each slot, for any slot list: every slot keeps its
   * sectors; slot `i`, for `i` below the number of active verses, becomes placed
   * and carries the `i`-th active verse's marker, moved; the other slots stay.
   */
  lemma {:induction false} UpdatedVersesSlots(vs: seq<Verse>)
    ensures var r, a := UpdatedVerses(vs), ActiveVerses(vs);
            forall i :: 0 <= i < |vs| ==>
              r[i].sectors == vs[i].sectors
              && (i < |a| ==> r[i].placed && r[i].marker == a[i].CopyMarker(r[i].marker.location))
              && (i >= |a| ==> r[i] == vs[i])
  {
    UpdateFromSlots(vs, ActiveVerses(vs), 0);
  }

  lemma {:induction false} UpdateFromSlots(vs: seq<Verse>, active: seq<Verse>, idx: nat)
    requires |active| <= |vs|
    ensures var r := UpdateFrom(vs, active, idx);
            forall i :: 0 <= i < |vs| ==>
              r[i].sectors == vs[i].sectors
              && (idx <= i < |active| ==> r[i].placed && r[i].marker == active[i].CopyMarker(r[i].marker.location))
              && (i < idx || i >= |active| ==> r[i] == vs[i])
    decreases |active| - idx
  {
    if idx < |active| {
      var loc := LocationInChapter(ActiveVerses(vs), active[idx].FirstFrame());
      var next := vs[idx := Verse(true, active[idx].CopyMarker(loc), vs[idx].sectors)];
      UpdateFromSlots(next, active, idx + 1);
    }
  }

  /**
   * For well-formed slots the update keeps them well formed, and the marker it
   * writes to slot `i` is the `i`-th active verse's, moved to where that verse
   * starts in the chapter: a slot it newly places had no sectors, so placing it
   * adds no frame to the chapter and moves no location.
   */
  lemma {:induction false} UpdatedVersesLocations(vs: seq<Verse>)
    requires AllWellFormed(vs)
    ensures AllWellFormed(UpdatedVerses(vs))
    ensures var r, a := UpdatedVerses(vs), ActiveVerses(vs);
            forall i :: 0 <= i < |a| ==> r[i].marker == Relocated(a[i], a).marker
  {
    var a := ActiveVerses(vs);
    UpdatedVersesSlots(vs);
    UpdateFromLocations(vs, vs, 0);
    var r := UpdatedVerses(vs);
    forall i | 0 <= i < |r| ensures r[i].WellFormed() {
      assert vs[i].WellFormed();
    }
  }

  /** `a` differs from `b` only in markers and in the flags of slots without sectors. */
  ghost predicate SilentlyPlaced(a: seq<Verse>, b: seq<Verse>) {
    |a| == |b| && forall i :: 0 <= i < |a| ==>
      a[i].sectors == b[i].sectors && (a[i].placed != b[i].placed ==> b[i].sectors == [])
  }

  lemma {:induction false} UpdateFromLocations(vs: seq<Verse>, orig: seq<Verse>, idx: nat)
    requires AllWellFormed(orig) && SilentlyPlaced(vs, orig)
    requires forall i :: idx <= i < |vs| ==> vs[i] == orig[i]
    requires |ActiveVerses(orig)| <= |vs|
    ensures var r, a := UpdateFrom(vs, ActiveVerses(orig), idx), ActiveVerses(orig);
            forall i :: idx <= i < |a| ==> r[i].marker == Relocated(a[i], a).marker
    decreases |ActiveVerses(orig)| - idx
  {
    var a := ActiveVerses(orig);
    if idx < |a| {
      UpdateFromStep(vs, orig, idx);
      var next := vs[idx := Verse(true, Relocated(a[idx], a).marker, vs[idx].sectors)];
      UpdateFromLocations(next, orig, idx + 1);
      var r := UpdateFrom(next, a, idx + 1);
      forall i | idx <= i < |a| ensures r[i].marker == Relocated(a[i], a).marker {
        if i == idx {
          assert r[idx] == next[idx];
        }
      }
    }
  }

  /** One step of the update over silently placed slots: slot `idx` gets the relocated marker. */
  lemma {:induction false} UpdateFromStep(vs: seq<Verse>, orig: seq<Verse>, idx: nat)
    requires AllWellFormed(orig) && SilentlyPlaced(vs, orig)
    requires forall i :: idx <= i < |vs| ==> vs[i] == orig[i]
    requires idx < |ActiveVerses(orig)| <= |vs|
    ensures var a := ActiveVerses(orig);
            var next := vs[idx := Verse(true, Relocated(a[idx], a).marker, vs[idx].sectors)];
            UpdateFrom(vs, a, idx) == UpdateFrom(next, a, idx + 1)
            && SilentlyPlaced(next, orig)
            && (forall i :: idx + 1 <= i < |next| ==> next[i] == orig[i])
            && UpdateFrom(next, a, idx + 1)[idx] == next[idx]
  {
    var a := ActiveVerses(orig);
    var f := a[idx].FirstFrame();
    SilentLocation(vs, orig, f);
    var m := a[idx].CopyMarker(LocationInChapter(ActiveVerses(vs), f));
    assert m == Relocated(a[idx], a).marker;
    PlaceSilently(vs, orig, idx, m);
    UpdateFromSlots(vs[idx := Verse(true, m, vs[idx].sectors)], a, idx + 1);
  }

  /** Placing one more slot, with the sectors it has, keeps the slots silently placed. */
  lemma {:induction false} PlaceSilently(vs: seq<Verse>, orig: seq<Verse>, idx: nat, m: Marker)
    requires SilentlyPlaced(vs, orig) && idx < |vs|
    requires vs[idx] == orig[idx] && orig[idx].WellFormed()
    ensures SilentlyPlaced(vs[idx := Verse(true, m, vs[idx].sectors)], orig)
  {
  }

  /** Slots placed without sectors leave the chapter's locations as they were. */
  lemma {:induction false} SilentLocation(a: seq<Verse>, b: seq<Verse>, f: int)
    requires SilentlyPlaced(a, b)
    ensures FindVerse(ActiveVerses(a), f) < |ActiveVerses(a)| <==> FindVerse(ActiveVerses(b), f) < |ActiveVerses(b)|
    ensures LocationInChapter(ActiveVerses(a), f) == LocationInChapter(ActiveVerses(b), f)
  {
    if a != [] {
      var ar, br := a[1..], b[1..];
      assert SilentlyPlaced(ar, br) by {
        forall i | 0 <= i < |ar| ensures ar[i].sectors == br[i].sectors && (ar[i].placed != br[i].placed ==> br[i].sectors == []) {
          assert ar[i] == a[i + 1] && br[i] == b[i + 1];
        }
      }
      SilentLocation(ar, br, f);
      SilentFront(a[0], b[0], ActiveVerses(ar), ActiveVerses(br), f);
    }
  }

  /** One slot in front: the step of `SilentLocation`. */
  lemma {:induction false} SilentFront(v: Verse, w: Verse, a: seq<Verse>, b: seq<Verse>, f: int)
    requires v.sectors == w.sectors && (v.placed != w.placed ==> w.sectors == [])
    requires FindVerse(a, f) < |a| <==> FindVerse(b, f) < |b|
    requires LocationInChapter(a, f) == LocationInChapter(b, f)
    ensures var a', b' := (if v.placed then [v] else []) + a, (if w.placed then [w] else []) + b;
            (FindVerse(a', f) < |a'| <==> FindVerse(b', f) < |b'|)
            && LocationInChapter(a', f) == LocationInChapter(b', f)
  {
    SlotLocation(v, a, f);
    SlotLocation(w, b, f);
  }

  /** How `findVerse` and the location in the chapter unfold over one slot, placed or not, in front of the active verses. */
  lemma {:induction false} SlotLocation(v: Verse, a: seq<Verse>, f: int)
    ensures var a' := (if v.placed then [v] else []) + a;
            var here := v.placed && v.Contains(f);
            (FindVerse(a', f) < |a'| <==> here || FindVerse(a, f) < |a|)
            && LocationInChapter(a', f)
               == if here then v.FramesToPosition(f)
                  else if FindVerse(a, f) < |a| then (if v.placed then v.Length() else 0) + LocationInChapter(a, f)
                  else 0
  {
    if v.placed {
      LocationCons(v, a, f);
    } else {
      assert [] + a == a;
    }
  }

  /** How `findVerse` and the location in the chapter unfold over one verse in front of a list. */
  lemma {:induction false} LocationCons(v: Verse, rest: seq<Verse>, f: int)
    ensures FindVerse([v] + rest, f) < |[v] + rest| <==> v.Contains(f) || FindVerse(rest, f) < |rest|
    ensures LocationInChapter([v] + rest, f)
            == if v.Contains(f) then v.FramesToPosition(f)
               else if FindVerse(rest, f) < |rest| then v.Length() + LocationInChapter(rest, f)
               else 0
  {
    var t := [v] + rest;
    assert t[0] == v && t[1..] == rest;
    if !v.Contains(f) {
      var k := FindVerse(rest, f);
      if k < |rest| {
        assert t[..1 + k] == [v] + rest[..k];
        ConsSlot(v, rest[..k]);
      }
    }
  }

  /**
   * The update `updateTotalVerses` is evidently meant to make: each placed slot,
   * where it stands, gets its marker moved to where its audio starts in the
   * chapter; unplaced slots are left alone.
   */
  function RelocatedVerses(vs: seq<Verse>): (r: seq<Verse>)
    ensures SameLayout(r, vs)
    ensures forall i :: 0 <= i < |vs| ==>
              r[i].marker.Label() == vs[i].marker.Label() && r[i].marker.Kind() == vs[i].marker.Kind()
  {
    seq(|vs|, i requires 0 <= i < |vs| => if vs[i].placed then Relocated(vs[i], ActiveVerses(vs)) else vs[i])
  }

  /**
   * The corrected update puts every placed slot's marker at its verse's location in
   * the chapter the update leaves, whatever the order of placed and unplaced slots,
   * and it agrees with `UpdatedVerses` when the placed slots form a prefix.
   */
  lemma {:induction false} RelocatedVersesIntended(vs: seq<Verse>)
    ensures var r := RelocatedVerses(vs);
            forall i :: 0 <= i < |vs| && vs[i].placed ==>
              r[i].marker.location == LocationInChapter(ActiveVerses(r), r[i].FirstFrame())
    ensures PlacedPrefix(vs) ==> UpdatedVerses(vs) == RelocatedVerses(vs)
  {
    var r := RelocatedVerses(vs);
    SameLayoutActive(r, vs);
    forall i | 0 <= i < |vs| && vs[i].placed
      ensures r[i].marker.location == LocationInChapter(ActiveVerses(r), r[i].FirstFrame())
    {
      SameLayoutLocation(ActiveVerses(r), ActiveVerses(vs), vs[i].FirstFrame());
    }
    if PlacedPrefix(vs) {
      UpdatedVersesOnPrefix(vs);
    }
  }
}
