/**
 * The list-building helpers of chunk creation: allocating one empty verse per
 * verse of the versification, overlaying the verses parsed from the text,
 * marking the verses that continue a bridge, mapping audio cues to verse ranges
 * and finding the verses a chunk of audio overlaps.
 */
module CreateChunks {
  import opened Wrappers
  import opened Markers

  /** `Int.MAX_VALUE`: the end of the last cue's range. */
  const IntMaxValue: int := 0x7fff_ffff

  /** The fields of a `Content` these helpers read or write. */
  datatype Content = Content(sort: int, labelKey: string, start: int, end: int,
                             text: string, format: string, draftNumber: int, bridged: bool)

  /** `VerseRange`: a verse's sort and the audio locations it spans. */
  datatype VerseRange = VerseRange(sort: int, startLoc: int, endLoc: int)

  // ---------------------------------------------------------------------------
  // Kotlin's `sortBy`/`sortedBy`: a stable sort on an integer key

  /** `x` placed before the first element whose key is not below its own. */
  function InsertBy<T>(x: T, s: seq<T>, key: T -> int): (r: seq<T>)
    ensures |r| == |s| + 1 && multiset(r) == multiset(s) + multiset{x}
  {
    if s == [] || key(x) <= key(s[0]) then [x] + s
    else
      var r := [s[0]] + InsertBy(x, s[1..], key);
      assert s == [s[0]] + s[1..];
      r
  }

  /** A stable insertion sort on `key`. */
  function SortBy<T>(s: seq<T>, key: T -> int): (r: seq<T>)
    ensures |r| == |s| && multiset(r) == multiset(s)
  {
    if s == [] then []
    else
      assert s == [s[0]] + s[1..];
      InsertBy(s[0], SortBy(s[1..], key), key)
  }

  ghost predicate SortedBy<T>(s: seq<T>, key: T -> int) {
    forall i, j :: 0 <= i < j < |s| ==> key(s[i]) <= key(s[j])
  }

  lemma {:induction false} InsertBySorted<T>(x: T, s: seq<T>, key: T -> int)
    requires SortedBy(s, key)
    ensures SortedBy(InsertBy(x, s, key), key)
  {
    if s != [] && key(x) > key(s[0]) {
      var t := s[1..];
      assert SortedBy(t, key) by {
        forall i, j | 0 <= i < j < |t| ensures key(t[i]) <= key(t[j]) {
          assert t[i] == s[i + 1] && t[j] == s[j + 1];
        }
      }
      InsertBySorted(x, t, key);
      InsertByBound(x, t, key, key(s[0]));
      var u := InsertBy(x, t, key);
      var r := [s[0]] + u;
      forall i, j | 0 <= i < j < |r| ensures key(r[i]) <= key(r[j]) {
        assert r[j] == u[j - 1];
        if i > 0 {
          assert r[i] == u[i - 1];
        }
      }
    }
  }

  /** A lower bound on the keys of `x` and of `s` bounds the keys after the insertion. */
  lemma {:induction false} InsertByBound<T>(x: T, s: seq<T>, key: T -> int, b: int)
    requires b <= key(x) && forall k :: 0 <= k < |s| ==> b <= key(s[k])
    ensures forall k :: 0 <= k < |InsertBy(x, s, key)| ==> b <= key(InsertBy(x, s, key)[k])
  {
    if s != [] && key(x) > key(s[0]) {
      InsertByBound(x, s[1..], key, b);
      var u := InsertBy(x, s[1..], key);
      assert InsertBy(x, s, key) == [s[0]] + u;
      forall k | 0 <= k < |u| + 1 ensures b <= key(([s[0]] + u)[k]) {
        if k > 0 {
          assert ([s[0]] + u)[k] == u[k - 1];
        }
      }
    }
  }

  /** `sortBy` yields its input's elements, ordered by the key. */
  lemma {:induction false} SortBySorted<T>(s: seq<T>, key: T -> int)
    ensures SortedBy(SortBy(s, key), key)
  {
    if s != [] {
      SortBySorted(s[1..], key);
      InsertBySorted(s[0], SortBy(s[1..], key), key);
    }
  }

  /** A list already in key order is left as it is. */
  lemma {:induction false} SortBySortedIdentity<T>(s: seq<T>, key: T -> int)
    requires SortedBy(s, key)
    ensures SortBy(s, key) == s
  {
    if s != [] {
      var t := s[1..];
      assert SortedBy(t, key) by {
        forall i, j | 0 <= i < j < |t| ensures key(t[i]) <= key(t[j]) {
          assert t[i] == s[i + 1] && t[j] == s[j + 1];
        }
      }
      SortBySortedIdentity(t, key);
      if t != [] {
        assert key(s[0]) <= key(s[1]);
      }
      assert [s[0]] + t == s;
    }
  }

  function SortKey(c: Content): int { c.sort }

  function LocationKey(c: AudioCue): int { c.location }

  // ---------------------------------------------------------------------------
  // Preallocation

  /** The empty verse preallocated for verse `n`. */
  function AllocatedVerse(n: int, draftNumber: int): Content {
    Content(n, "verse", n, n, "", "usfm", draftNumber, false)
  }

  /**
   * `preallocateVerses`: verses `1..verseCount` of the versification (none for a
   * count below 1), each with sort, start and end equal to its number, no text, the
   * USFM format and the draft number given.
   */
  method PreallocateVerses(verseCount: int, draftNumber: int) returns (chunks: seq<Content>)
    ensures |chunks| == Max(verseCount, 0)
    ensures forall k :: 0 <= k < |chunks| ==>
              chunks[k].sort == chunks[k].start == chunks[k].end == k + 1
              && chunks[k].labelKey == "verse" && chunks[k].text == "" && chunks[k].format == "usfm"
              && chunks[k].draftNumber == draftNumber && !chunks[k].bridged
  {
    chunks := [];
    var verseNumber := 1;
    while verseNumber <= verseCount
      invariant 1 <= verseNumber <= Max(verseCount, 0) + 1
      invariant |chunks| == verseNumber - 1
      invariant forall k :: 0 <= k < |chunks| ==> chunks[k] == AllocatedVerse(k + 1, draftNumber)
    {
      chunks := chunks + [AllocatedVerse(verseNumber, draftNumber)];
      verseNumber := verseNumber + 1;
    }
  }

  /** Preallocated verses are in sort order and none spans several verses, so marking bridges changes nothing. */
  lemma {:induction false} PreallocatedNotBridged(chunks: seq<Content>)
    requires forall k :: 0 <= k < |chunks| ==> chunks[k].sort == chunks[k].start == chunks[k].end == k + 1
    ensures MarkedBridges(chunks) == chunks
  {
    assert SortedBy(chunks, SortKey) by {
      forall i, j | 0 <= i < j < |chunks| ensures SortKey(chunks[i]) <= SortKey(chunks[j]) {
      }
    }
    SortBySortedIdentity(chunks, SortKey);
    assert Bridged(chunks) == chunks;
  }

  // ---------------------------------------------------------------------------
  // Bridges

  /**
   * The flags the marking loop leaves on a list already in sort order: an entry
   * becomes bridged when the entry before it spans more than one verse.
   */
  function Bridged(s: seq<Content>): seq<Content> {
    seq(|s|, i requires 0 <= i < |s| => BridgedAt(s, i))
  }

  /** Entry `i` after the marking loop. */
  function BridgedAt(s: seq<Content>, i: int): Content
    requires 0 <= i < |s|
  {
    if i > 0 && s[i - 1].start != s[i - 1].end then s[i].(bridged := true) else s[i]
  }

  /** `markBridgedVerses` on a list: sorted by `sort`, then the bridges marked. */
  function MarkedBridges(s: seq<Content>): seq<Content> {
    Bridged(SortBy(s, SortKey))
  }

  /**
   * `markBridgedVerses(verses)`: the list is sorted by `sort` in place, then every
   * entry that follows an entry spanning several verses is marked bridged.
   */
  method MarkBridgedVerses(verses: array<Content>)
    modifies verses
    ensures verses[..] == MarkedBridges(old(verses[..]))
  {
    var sorted := SortBy(verses[..], SortKey);
    forall i | 0 <= i < verses.Length {
      verses[i] := sorted[i];
    }
    assert verses[..] == sorted;
    MarkBridges(verses);
  }

  /** The marking loop of `markBridgedVerses`, over a list already sorted. */
  method MarkBridges(verses: array<Content>)
    modifies verses
    ensures verses[..] == Bridged(old(verses[..]))
  {
    ghost var s := verses[..];
    var bridge := false;
    var i := 0;
    while i < verses.Length
      invariant 0 <= i <= verses.Length
      invariant bridge == (i > 0 && s[i - 1].start != s[i - 1].end)
      invariant forall k :: 0 <= k < i ==> verses[k] == BridgedAt(s, k)
      invariant forall k :: i <= k < verses.Length ==> verses[k] == s[k]
    {
      var v := verses[i];
      if bridge {
        v := v.(bridged := true);
        verses[i] := v;
      }
      if v.start == v.end {
        bridge := false;
      }
      if v.start != v.end {
        bridge := true;
      }
      i := i + 1;
    }
    assert verses[..] == Bridged(s);
  }

  /**
   * Marking keeps every entry and its order by `sort`, only ever sets the flag, and
   * sets it exactly on the entries that follow an entry spanning several verses.
   */
  lemma {:induction false} MarkedBridgesFlags(s: seq<Content>)
    ensures var sorted := SortBy(s, SortKey);
            var r := MarkedBridges(s);
            |r| == |s| && SortedBy(r, SortKey)
            && forall i :: 0 <= i < |r| ==>
                 r[i].(bridged := false) == sorted[i].(bridged := false)
                 && (r[i].bridged <==> sorted[i].bridged || (i > 0 && sorted[i - 1].start != sorted[i - 1].end))
  {
    var sorted := SortBy(s, SortKey);
    SortBySorted(s, SortKey);
    var r := MarkedBridges(s);
    forall i, j | 0 <= i < j < |r| ensures SortKey(r[i]) <= SortKey(r[j]) {
      assert SortKey(r[i]) == SortKey(sorted[i]) && SortKey(r[j]) == SortKey(sorted[j]);
    }
  }

  /** Marking twice marks nothing more. */
  lemma {:induction false} MarkedBridgesIdempotent(s: seq<Content>)
    ensures MarkedBridges(MarkedBridges(s)) == MarkedBridges(s)
  {
    var t := SortBy(s, SortKey);
    var r := Bridged(t);
    MarkedBridgesFlags(s);
    SortBySortedIdentity(r, SortKey);
    forall i | 0 <= i < |r| ensures BridgedAt(r, i) == r[i] {
      if i > 0 {
        assert r[i - 1] == BridgedAt(t, i - 1) && r[i] == BridgedAt(t, i);
      }
    }
    assert Bridged(r) == r;
  }

  // ---------------------------------------------------------------------------
  // Overlaying the text

  /** Kotlin's `find { it.start == start }`: the index of the first verse with that start. */
  function FindByStart(fromText: seq<Content>, start: int): (r: Option<nat>)
    ensures r.None? <==> forall j :: 0 <= j < |fromText| ==> fromText[j].start != start
    ensures r.Some? ==> r.value < |fromText| && fromText[r.value].start == start
                        && forall j :: 0 <= j < r.value ==> fromText[j].start != start
  {
    if fromText == [] then None
    else if fromText[0].start == start then Some(0)
    else
      match FindByStart(fromText[1..], start)
      case None => None
      case Some(k) => Some(k + 1)
  }

  /**
   * One preallocated verse after the overlay: with the text, start, end and bridge
   * flag of the first text verse sharing its start, when there is one.
   */
  function OverlayOne(preallocated: Content, fromText: seq<Content>): (c: Content)
    ensures FindByStart(fromText, preallocated.start).None? ==> c == preallocated
    ensures FindByStart(fromText, preallocated.start).Some? ==>
              var found := fromText[FindByStart(fromText, preallocated.start).value];
              c.text == found.text && c.start == found.start == preallocated.start && c.end == found.end
              && c.bridged == found.bridged
              && c.sort == preallocated.sort && c.labelKey == preallocated.labelKey
              && c.format == preallocated.format && c.draftNumber == preallocated.draftNumber
  {
    match FindByStart(fromText, preallocated.start)
    case None => preallocated
    case Some(k) =>
      var found := fromText[k];
      preallocated.(text := found.text, start := found.start, end := found.end, bridged := found.bridged)
  }

  /**
   * `overlayVerses(preallocated, fromText)`: every preallocated verse overlaid with the
   * text, then the list sorted and its bridges marked.
   */
  method OverlayVerses(preallocated: seq<Content>, fromText: seq<Content>) returns (r: seq<Content>)
    ensures |r| == |preallocated|
    ensures r == MarkedBridges(seq(|preallocated|, k requires 0 <= k < |preallocated| => OverlayOne(preallocated[k], fromText)))
  {
    var verses: seq<Content> := [];
    var i := 0;
    while i < |preallocated|
      invariant 0 <= i <= |preallocated|
      invariant verses == seq(i, k requires 0 <= k < i => OverlayOne(preallocated[k], fromText))
    {
      verses := verses + [OverlayOne(preallocated[i], fromText)];
      i := i + 1;
    }
    var list := new Content[|verses|](k requires 0 <= k < |verses| => verses[k]);
    assert list[..] == verses;
    MarkBridgedVerses(list);
    r := list[..];
  }

  // ---------------------------------------------------------------------------
  // Cues and verse ranges

  /**
   * `mapCuesToRanges(cues)`, as written: range `i` is numbered `i + 1` and runs from
   * cue `i` to the next cue, or to `Int.MAX_VALUE` for the last. The cues are taken
   * in the order given: the sorted copy the source makes is dropped.
   */
  method MapCuesToRanges(cues: seq<AudioCue>) returns (ranges: seq<VerseRange>)
    ensures ranges == CueRanges(cues)
  {
    ranges := [];
    var idx := 0;
    while idx < |cues|
      invariant 0 <= idx <= |cues|
      invariant ranges == CueRanges(cues)[..idx]
    {
      var cue := cues[idx];
      var end := if |cues| > idx + 1 then cues[idx + 1].location else IntMaxValue;
      ranges := ranges + [VerseRange(idx + 1, cue.location, end)];
      idx := idx + 1;
    }
  }

  /** The ranges of cues as written: each ends where the next starts. */
  ghost predicate Contiguous(ranges: seq<VerseRange>) {
    forall i :: 0 <= i < |ranges| - 1 ==> ranges[i].endLoc == ranges[i + 1].startLoc
  }

  /** Ranges built from cues given out of order: the first range ends before it starts. */
  lemma {:induction false} UnsortedCuesGiveInvertedRange()
    ensures var cues := [AudioCue(10, "orature-vm-1"), AudioCue(5, "orature-vm-2")];
            var r := CueRanges(cues);
            r[0].startLoc == 10 && r[0].endLoc == 5 && r[0].endLoc < r[0].startLoc
  {
  }

  /** The ranges `mapCuesToRanges` builds, over the cues in the order given. */
  function CueRanges(cues: seq<AudioCue>): (r: seq<VerseRange>)
    ensures |r| == |cues| && Contiguous(r)
    ensures forall i :: 0 <= i < |cues| ==> r[i].sort == i + 1 && r[i].startLoc == cues[i].location
    ensures |cues| > 0 ==> r[|cues| - 1].endLoc == IntMaxValue
  {
    seq(|cues|, i requires 0 <= i < |cues| =>
      VerseRange(i + 1, cues[i].location, if i + 1 < |cues| then cues[i + 1].location else IntMaxValue))
  }

  /**
   * `mapCuesToRanges` with the sorted copy used, as its first line evidently
   * intends: the ranges then follow the cues in location order.
   */
  method MapSortedCuesToRanges(cues: seq<AudioCue>) returns (ranges: seq<VerseRange>)
    ensures ranges == CueRanges(SortBy(cues, LocationKey))
  {
    var sorted := SortBy(cues, LocationKey);
    ranges := MapCuesToRanges(sorted);
  }

  /**
   * With the cues sorted, the ranges cover the audio in order: contiguous, each
   * starting no later than it ends, as long as every cue lies within `Int.MAX_VALUE`.
   */
  lemma {:induction false} SortedCueRangesOrdered(cues: seq<AudioCue>)
    requires forall i :: 0 <= i < |cues| ==> cues[i].location <= IntMaxValue
    ensures var r := CueRanges(SortBy(cues, LocationKey));
            Contiguous(r) && forall i :: 0 <= i < |r| ==> r[i].startLoc <= r[i].endLoc
  {
    var sorted := SortBy(cues, LocationKey);
    SortBySorted(cues, LocationKey);
    var r := CueRanges(sorted);
    forall i | 0 <= i < |r| ensures r[i].startLoc <= r[i].endLoc {
      if i + 1 < |sorted| {
        assert LocationKey(sorted[i]) <= LocationKey(sorted[i + 1]);
      } else {
        assert sorted[i] in multiset(cues);
        var k :| 0 <= k < |cues| && cues[k] == sorted[i];
      }
    }
  }

  /**
   * The three ways `findVerseRange` counts a verse in: the chunk starts inside it,
   * the chunk ends inside it, or it lies inside the chunk.
   */
  predicate Overlaps(verse: VerseRange, chunk: VerseRange) {
    (chunk.startLoc >= verse.startLoc && chunk.startLoc <= verse.endLoc)
    || (chunk.endLoc >= verse.startLoc && chunk.endLoc <= verse.endLoc)
    || (verse.startLoc >= chunk.startLoc && verse.endLoc <= chunk.endLoc)
  }

  /** For ranges that start no later than they end, the three tests say that the two ranges intersect. */
  lemma {:induction false} OverlapsIffIntersect(verse: VerseRange, chunk: VerseRange)
    requires verse.startLoc <= verse.endLoc && chunk.startLoc <= chunk.endLoc
    ensures Overlaps(verse, chunk) <==> verse.startLoc <= chunk.endLoc && chunk.startLoc <= verse.endLoc
  {
  }

  /** The sorts of the verses the chunk overlaps, in marker order. */
  function OverlappedSorts(markers: seq<VerseRange>, chunk: VerseRange): seq<int> {
    if markers == [] then []
    else (if Overlaps(markers[0], chunk) then [markers[0].sort] else []) + OverlappedSorts(markers[1..], chunk)
  }

  /** A sort is listed exactly when some overlapped verse has it. */
  lemma {:induction false} OverlappedSortsMembers(markers: seq<VerseRange>, chunk: VerseRange, x: int)
    ensures x in OverlappedSorts(markers, chunk) <==>
            exists i :: 0 <= i < |markers| && Overlaps(markers[i], chunk) && markers[i].sort == x
  {
    if markers != [] {
      OverlappedSortsMembers(markers[1..], chunk, x);
      if x in OverlappedSorts(markers[1..], chunk) {
        var i :| 0 <= i < |markers[1..]| && Overlaps(markers[1..][i], chunk) && markers[1..][i].sort == x;
        assert markers[i + 1] == markers[1..][i];
      }
      if exists i :: 0 <= i < |markers| && Overlaps(markers[i], chunk) && markers[i].sort == x {
        var i :| 0 <= i < |markers| && Overlaps(markers[i], chunk) && markers[i].sort == x;
        if i > 0 {
          assert markers[1..][i - 1] == markers[i];
        }
      }
    }
  }

  /**
   * `findVerseRange(markers, chunk)`: nothing without markers; otherwise the sorts
   * of the verses the chunk overlaps, in marker order, or the first marker's sort
   * when it overlaps none.
   */
  method FindVerseRange(verseMarkers: seq<VerseRange>, chunk: VerseRange) returns (verses: seq<int>)
    ensures verseMarkers == [] ==> verses == []
    ensures verseMarkers != [] ==>
              verses == if OverlappedSorts(verseMarkers, chunk) == [] then [verseMarkers[0].sort]
                        else OverlappedSorts(verseMarkers, chunk)
  {
    verses := [];
    if verseMarkers == [] {
      return;
    }
    var i := 0;
    while i < |verseMarkers|
      invariant 0 <= i <= |verseMarkers|
      invariant verses + OverlappedSorts(verseMarkers[i..], chunk) == OverlappedSorts(verseMarkers, chunk)
    {
      var verse := verseMarkers[i];
      assert verseMarkers[i..][0] == verse && verseMarkers[i..][1..] == verseMarkers[i + 1..];
      var chunkStartsAfterVerseStart := chunk.startLoc >= verse.startLoc;
      var chunkStartsBeforeVerseEnd := chunk.startLoc <= verse.endLoc;
      var chunkEndsAfterVerseStart := chunk.endLoc >= verse.startLoc;
      var chunkEndsBeforeVerseEnd := chunk.endLoc <= verse.endLoc;
      var verseStartsAfterChunkStart := verse.startLoc >= chunk.startLoc;
      var verseEndsBeforeChunkEnd := verse.endLoc <= chunk.endLoc;
      if chunkStartsAfterVerseStart && chunkStartsBeforeVerseEnd {
        verses := verses + [verse.sort];
      } else if chunkEndsAfterVerseStart && chunkEndsBeforeVerseEnd {
        verses := verses + [verse.sort];
      } else if verseStartsAfterChunkStart && verseEndsBeforeChunkEnd {
        verses := verses + [verse.sort];
      }
      i := i + 1;
    }
    assert verseMarkers[i..] == [];
    if verses == [] {
      verses := verses + [verseMarkers[0].sort];
    }
  }

  /**
   * What `findVerseRange` finds for markers: never empty, only marker sorts, and
   * every overlapped verse's sort; when the chunk overlaps some verse, nothing else.
   */
  lemma {:induction false} VerseRangeFound(verseMarkers: seq<VerseRange>, chunk: VerseRange, x: int)
    requires verseMarkers != []
    ensures var found := if OverlappedSorts(verseMarkers, chunk) == [] then [verseMarkers[0].sort]
                         else OverlappedSorts(verseMarkers, chunk);
            found != []
            && (x in found ==> exists i :: 0 <= i < |verseMarkers| && verseMarkers[i].sort == x)
            && ((exists i :: 0 <= i < |verseMarkers| && Overlaps(verseMarkers[i], chunk) && verseMarkers[i].sort == x) ==> x in found)
            && (OverlappedSorts(verseMarkers, chunk) != [] ==>
                  (x in found <==> exists i :: 0 <= i < |verseMarkers| && Overlaps(verseMarkers[i], chunk) && verseMarkers[i].sort == x))
  {
    OverlappedSortsMembers(verseMarkers, chunk, x);
    if OverlappedSorts(verseMarkers, chunk) == [] && x == verseMarkers[0].sort {
      assert verseMarkers[0].sort == x;
    }
  }
}
