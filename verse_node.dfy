/**
 * A verse slot of the chapter: a placement flag, its marker, and the ordered list
 * of inclusive frame ranges ("sectors") of the scratch tape that hold the verse's
 * current recording. The verse's audio is the concatenation of its sectors' frames,
 * which lets a verse skip over tape regions that belong to other verses or to
 * superseded takes.
 *
 * `Verse` is the value of a node; `VerseNode` is the mutable object the chapter
 * holds in its slots, whose fields trimming and clearing overwrite in place.
 */
module VerseNodes {
  import opened Wrappers
  import opened Markers

  /** An inclusive frame range `first..last` (a Kotlin `IntRange`). */
  datatype Sector = Sector(first: int, last: int) {
    /** `IntRange.length()`: the number of frames, `last - first + 1`. */
    function Length(): int { last - first + 1 }

    predicate Has(f: int) { first <= f <= last }

    /** The frames of the range, in increasing order. */
    ghost function Frames(): (r: seq<int>)
      ensures first <= last ==> |r| == Length()
    {
      if first <= last then seq(last - first + 1, k => first + k) else []
    }
  }

  /** The frames `a, a + 1, ..., a + k - 1`. */
  ghost function Run(a: int, k: nat): (r: seq<int>)
    ensures |r| == k && forall j :: 0 <= j < k ==> r[j] == a + j
  {
    seq(k, j => a + j)
  }

  lemma {:induction false} SectorFramesAreRun(s: Sector)
    requires s.first <= s.last + 1
    ensures s.Frames() == Run(s.first, s.Length())
  {
  }

  /** A run of `m` frames followed by the run after it is one run. */
  lemma {:induction false} RunAppend(a: int, m: nat, n: nat)
    ensures Run(a, m) + Run(a + m, n) == Run(a, m + n)
  {
    var x := Run(a, m) + Run(a + m, n);
    assert forall j :: 0 <= j < m + n ==> x[j] == a + j by {
      forall j | 0 <= j < m + n ensures x[j] == a + j {
        if j >= m {
          assert x[j] == Run(a + m, n)[j - m];
        }
      }
    }
  }

  /** The frames of a list of sectors, read one sector after the other. */
  ghost function SectorFrames(ss: seq<Sector>): seq<int> {
    if ss == [] then [] else ss[0].Frames() + SectorFrames(ss[1..])
  }

  /** Sectors are non-empty ranges of non-negative frames, sorted and pairwise disjoint. */
  ghost predicate WellFormedSectors(ss: seq<Sector>) {
    (forall i :: 0 <= i < |ss| ==> 0 <= ss[i].first <= ss[i].last) &&
    (forall i, j :: 0 <= i < j < |ss| ==> ss[i].last < ss[j].first)
  }

  /** Every sector is a non-empty range (the part of well-formedness the frame arithmetic needs). */
  ghost predicate NonEmptySectors(ss: seq<Sector>) {
    forall i :: 0 <= i < |ss| ==> ss[i].first <= ss[i].last
  }

  function SectorsLength(ss: seq<Sector>): int {
    if ss == [] then 0 else ss[0].Length() + SectorsLength(ss[1..])
  }

  /** `frame in node`: some sector holds the frame. */
  predicate InSectors(ss: seq<Sector>, f: int) {
    ss != [] && (ss[0].Has(f) || InSectors(ss[1..], f))
  }

  /** Walks the sectors summing lengths up to the one holding `f`, then adds the offset inside it; 0 when no sector holds `f`. */
  function OffsetIn(ss: seq<Sector>, f: int): int {
    if ss == [] then 0
    else if ss[0].Has(f) then f - ss[0].first
    else if InSectors(ss[1..], f) then ss[0].Length() + OffsetIn(ss[1..], f)
    else 0
  }

  /** The first `n` frames of `ss`, as a list of sectors with the last one clipped. */
  function TakeFrames(ss: seq<Sector>, n: int): seq<Sector> {
    if ss == [] || n <= 0 then []
    else if ss[0].Length() >= n then [Sector(ss[0].first, ss[0].first + n - 1)]
    else [ss[0]] + TakeFrames(ss[1..], n - ss[0].Length())
  }

  /** The sectors covering at most `n` frames from frame `f` on, clipped at both ends; empty when no sector holds `f`. */
  function SectorsFrom(ss: seq<Sector>, f: int, n: int): seq<Sector> {
    if ss == [] then []
    else if ss[0].Has(f) then TakeFrames([Sector(f, ss[0].last)] + ss[1..], n)
    else SectorsFrom(ss[1..], f, n)
  }

  /** The value of a verse node. */
  datatype Verse = Verse(placed: bool, marker: Marker, sectors: seq<Sector>) {
    /** `length`: the number of frames in the verse's sectors. */
    function Length(): int { SectorsLength(sectors) }

    /** `frame in node`. */
    predicate Contains(f: int) { InSectors(sectors, f) }

    /** `firstFrame()`: the first frame of the first sector, or 0 for a verse without sectors. */
    function FirstFrame(): int { if sectors == [] then 0 else sectors[0].first }

    /** `lastFrame()`: the last frame of the last sector, or 0 for a verse without sectors. */
    function LastFrame(): int { if sectors == [] then 0 else sectors[|sectors| - 1].last }

    /** `framesToPosition(f)`: how many of the verse's frames come before `f`. */
    function FramesToPosition(f: int): int { OffsetIn(sectors, f) }

    /** `getSectorsFromOffset(f, n)`. */
    function GetSectorsFromOffset(f: int, n: int): seq<Sector> { SectorsFrom(sectors, f, n) }

    /** `copyMarker(location)`: the verse's marker moved to `loc`. */
    function CopyMarker(loc: int): (m: Marker)
      ensures m.location == loc && m.Label() == marker.Label() && m.Kind() == marker.Kind()
    {
      marker.WithLocation(loc)
    }

    /** The audio of the verse: its sectors' frames in order. */
    ghost function Frames(): seq<int> { SectorFrames(sectors) }

    /** Sectors sorted and disjoint; an unplaced verse has no sectors. */
    ghost predicate WellFormed() {
      WellFormedSectors(sectors) && (!placed ==> sectors == [])
    }

    /** A placed verse holds audio. */
    ghost predicate Recorded() {
      placed ==> sectors != []
    }
  }

  // ---------------------------------------------------------------------------
  // The sector walk agrees with the frames of the verse

  lemma {:induction false} FramesLength(ss: seq<Sector>)
    requires NonEmptySectors(ss)
    ensures |SectorFrames(ss)| == SectorsLength(ss)
    ensures SectorsLength(ss) >= |ss|
  {
    if ss != [] {
      FramesLength(ss[1..]);
    }
  }

  lemma {:induction false} InSectorsIffInFrames(ss: seq<Sector>, f: int)
    ensures InSectors(ss, f) <==> f in SectorFrames(ss)
  {
    if ss != [] {
      InSectorsIffInFrames(ss[1..], f);
      var s := ss[0];
      if s.Has(f) {
        assert s.Frames()[f - s.first] == f;
      }
      assert SectorFrames(ss) == s.Frames() + SectorFrames(ss[1..]);
    }
  }

  /** `framesToPosition` is the index of the first occurrence of `f` among the verse's frames. */
  lemma {:induction false} OffsetInLocates(ss: seq<Sector>, f: int)
    requires NonEmptySectors(ss)
    requires InSectors(ss, f)
    ensures 0 <= OffsetIn(ss, f) < |SectorFrames(ss)|
    ensures SectorFrames(ss)[OffsetIn(ss, f)] == f
    ensures forall j :: 0 <= j < OffsetIn(ss, f) ==> SectorFrames(ss)[j] != f
  {
    var s := ss[0];
    var rest := SectorFrames(ss[1..]);
    assert SectorFrames(ss) == s.Frames() + rest;
    if s.Has(f) {
      assert s.Frames()[f - s.first] == f;
    } else {
      OffsetInLocates(ss[1..], f);
      assert f !in s.Frames();
    }
  }

  lemma {:induction false} TakeFramesReads(ss: seq<Sector>, n: int)
    requires NonEmptySectors(ss)
    requires n >= 0
    ensures NonEmptySectors(TakeFrames(ss, n))
    ensures SectorFrames(TakeFrames(ss, n)) == SectorFrames(ss)[..Min(n, |SectorFrames(ss)|)]
  {
    FramesLength(ss);
    if ss != [] && n > 0 {
      var s := ss[0];
      assert SectorFrames(ss) == s.Frames() + SectorFrames(ss[1..]);
      if s.Length() >= n {
        ClippedSector(s, n);
      } else {
        var t := TakeFrames(ss[1..], n - s.Length());
        TakeFramesReads(ss[1..], n - s.Length());
        FramesLength(ss[1..]);
        SectorInFront(s, t);
        PrefixPastFirst(s.Frames(), SectorFrames(ss[1..]), n);
      }
    }
  }

  /** The first `n` frames of a sector of at least `n` frames, as a one-sector list. */
  lemma {:induction false} ClippedSector(s: Sector, n: int)
    requires 0 < n <= s.Length()
    ensures NonEmptySectors([Sector(s.first, s.first + n - 1)])
    ensures SectorFrames([Sector(s.first, s.first + n - 1)]) == s.Frames()[..n]
  {
    var c := Sector(s.first, s.first + n - 1);
    assert SectorFrames([c]) == c.Frames() + SectorFrames([]);
  }

  /** A non-empty sector in front of a list of non-empty sectors. */
  lemma {:induction false} SectorInFront(s: Sector, t: seq<Sector>)
    requires s.first <= s.last && NonEmptySectors(t)
    ensures NonEmptySectors([s] + t)
    ensures SectorFrames([s] + t) == s.Frames() + SectorFrames(t)
  {
    assert ([s] + t)[1..] == t;
  }

  /** A prefix of `a + b` longer than `a`: all of `a`, then a prefix of `b`. */
  lemma {:induction false} PrefixPastFirst(a: seq<int>, b: seq<int>, n: int)
    requires |a| < n
    ensures (a + b)[..Min(n, |a| + |b|)] == a + b[..Min(n - |a|, |b|)]
  {
  }

  /** Reading from a frame of the first sector: the clipped first sector and the rest. */
  lemma {:induction false} SectorsFromFirstSector(ss: seq<Sector>, f: int, n: int)
    requires NonEmptySectors(ss) && ss != [] && ss[0].Has(f)
    requires n >= 0
    ensures NonEmptySectors(SectorsFrom(ss, f, n))
    ensures SectorFrames(SectorsFrom(ss, f, n))
         == SectorFrames(ss)[f - ss[0].first .. f - ss[0].first + Min(n, |SectorFrames(ss)| - (f - ss[0].first))]
  {
    var s := ss[0];
    var t := [Sector(f, s.last)] + ss[1..];
    ClippedFirstSector(ss, f);
    TakeFramesReads(t, n);
    var x, d := SectorFrames(ss), f - s.first;
    assert SectorsFrom(ss, f, n) == TakeFrames(t, n);
    WindowOfSuffix(x, d, Min(n, |x| - d));
  }

  /** Clipping the first sector at one of its frames drops exactly the frames before it. */
  lemma {:induction false} ClippedFirstSector(ss: seq<Sector>, f: int)
    requires NonEmptySectors(ss) && ss != [] && ss[0].Has(f)
    ensures NonEmptySectors([Sector(f, ss[0].last)] + ss[1..])
    ensures SectorFrames([Sector(f, ss[0].last)] + ss[1..]) == SectorFrames(ss)[f - ss[0].first..]
  {
    var s := ss[0];
    var t := [Sector(f, s.last)] + ss[1..];
    assert SectorFrames(ss) == s.Frames() + SectorFrames(ss[1..]);
    assert t[1..] == ss[1..];
    assert SectorFrames(t) == Sector(f, s.last).Frames() + SectorFrames(ss[1..]);
    SectorSuffixFrames(s, f);
    SuffixOfAppend(s.Frames(), SectorFrames(ss[1..]), f - s.first);
  }

  /** The frames of a sector from `f` on are the sector's frames after the first `f - first`. */
  lemma {:induction false} SectorSuffixFrames(s: Sector, f: int)
    requires s.Has(f)
    ensures Sector(f, s.last).Frames() == s.Frames()[f - s.first..]
  {
  }

  /** Dropping a prefix of `a + b` no longer than `a`. */
  lemma {:induction false} SuffixOfAppend(a: seq<int>, b: seq<int>, d: int)
    requires 0 <= d <= |a|
    ensures (a + b)[d..] == a[d..] + b
  {
  }

  /** The first `m` elements of `x[d..]` are the window `x[d..d + m]`. */
  lemma {:induction false} WindowOfSuffix(x: seq<int>, d: int, m: int)
    requires 0 <= d && 0 <= m && d + m <= |x|
    ensures x[d..][..m] == x[d..d + m]
  {
  }

  /**
   * `getSectorsFromOffset(f, n)` reads exactly the next `min(n, remaining)` frames
   * of the verse from `f` on, and nothing when `f` is not in the verse.
   */
  lemma {:induction false} SectorsFromReads(ss: seq<Sector>, f: int, n: int)
    requires NonEmptySectors(ss)
    requires n >= 0
    ensures NonEmptySectors(SectorsFrom(ss, f, n))
    ensures !InSectors(ss, f) ==> SectorsFrom(ss, f, n) == []
    ensures InSectors(ss, f) ==>
      var p := OffsetIn(ss, f);
      0 <= p < |SectorFrames(ss)| &&
      SectorFrames(SectorsFrom(ss, f, n)) == SectorFrames(ss)[p .. p + Min(n, |SectorFrames(ss)| - p)]
  {
    SectorsFromOutside(ss, f, n);
    if ss != [] {
      var s := ss[0];
      if s.Has(f) {
        SectorsFromHere(ss, f, n);
      } else {
        var rest := ss[1..];
        SectorsFromReads(rest, f, n);
        if InSectors(rest, f) {
          var p := OffsetIn(rest, f);
          var m := Min(n, |SectorFrames(rest)| - p);
          FramesLength(rest);
          SectorsFromLaterSector(ss, f, n, p, m);
        }
      }
    }
  }

  /** Reading from a frame of the first sector, stated as `SectorsFromReads` states it. */
  lemma {:induction false} SectorsFromHere(ss: seq<Sector>, f: int, n: int)
    requires NonEmptySectors(ss) && ss != [] && ss[0].Has(f) && n >= 0
    ensures InSectors(ss, f) && NonEmptySectors(SectorsFrom(ss, f, n))
    ensures var p := OffsetIn(ss, f);
            0 <= p < |SectorFrames(ss)| &&
            SectorFrames(SectorsFrom(ss, f, n)) == SectorFrames(ss)[p .. p + Min(n, |SectorFrames(ss)| - p)]
  {
    SectorsFromFirstSector(ss, f, n);
    assert OffsetIn(ss, f) == f - ss[0].first;
    FramesLength(ss);
    assert |ss[0].Frames()| == ss[0].Length();
    assert SectorFrames(ss) == ss[0].Frames() + SectorFrames(ss[1..]);
  }

  /** Reading from a frame past the first sector: the same window, shifted by the first sector's length. */
  lemma {:induction false} SectorsFromLaterSector(ss: seq<Sector>, f: int, n: int, p: int, m: int)
    requires ss != [] && ss[0].first <= ss[0].last && !ss[0].Has(f) && InSectors(ss[1..], f)
    requires p == OffsetIn(ss[1..], f) && 0 <= p < |SectorFrames(ss[1..])|
    requires m == Min(n, |SectorFrames(ss[1..])| - p) && 0 <= m && p + m <= |SectorFrames(ss[1..])|
    requires SectorFrames(SectorsFrom(ss[1..], f, n)) == SectorFrames(ss[1..])[p .. p + m]
    requires NonEmptySectors(SectorsFrom(ss[1..], f, n))
    ensures SectorsFrom(ss, f, n) == SectorsFrom(ss[1..], f, n)
    ensures var q := OffsetIn(ss, f);
            0 <= q < |SectorFrames(ss)| &&
            SectorFrames(SectorsFrom(ss, f, n)) == SectorFrames(ss)[q .. q + Min(n, |SectorFrames(ss)| - q)]
  {
    var s, rest := ss[0], ss[1..];
    var a, b := s.Frames(), SectorFrames(rest);
    assert SectorFrames(ss) == a + b;
    assert |a| == s.Length();
    assert OffsetIn(ss, f) == |a| + p;
    assert Min(n, |SectorFrames(ss)| - OffsetIn(ss, f)) == m;
    SliceAfterPrefix(a, b, p, p + m);
  }

  /** A window of `a + b` that lies after `a` is a window of `b`. */
  lemma {:induction false} SliceAfterPrefix(a: seq<int>, b: seq<int>, i: int, j: int)
    requires 0 <= i <= j <= |b|
    ensures (a + b)[|a| + i .. |a| + j] == b[i..j]
  {
    forall k | 0 <= k < j - i ensures (a + b)[|a| + i .. |a| + j][k] == b[i..j][k] {
      assert (a + b)[|a| + i + k] == b[i + k];
    }
  }

  /** No sector holds `f`: nothing is read. */
  lemma {:induction false} SectorsFromOutside(ss: seq<Sector>, f: int, n: int)
    ensures !InSectors(ss, f) ==> SectorsFrom(ss, f, n) == []
  {
    if ss != [] && !ss[0].Has(f) {
      SectorsFromOutside(ss[1..], f, n);
    }
  }

  /** The worked case: reading 5 frames from frame 8 of `[0,9], [20,29]` crosses the gap. */
  lemma {:induction false} SectorsFromCrossesGap()
    ensures SectorsFrom([Sector(0, 9), Sector(20, 29)], 8, 5) == [Sector(8, 9), Sector(20, 22)]
  {
    var ss := [Sector(0, 9), Sector(20, 29)];
    assert [Sector(8, 9)] + ss[1..] == [Sector(8, 9), Sector(20, 29)];
    assert TakeFrames([Sector(20, 29)], 3) == [Sector(20, 22)];
  }

  /** The frames read from `getSectorsFromOffset` never exceed the request. */
  lemma {:induction false} SectorsFromBounded(v: Verse, f: int, n: int)
    requires NonEmptySectors(v.sectors)
    requires n >= 0
    ensures SectorsLength(v.GetSectorsFromOffset(f, n)) <= n
    ensures v.Contains(f) && n > 0 ==> v.GetSectorsFromOffset(f, n) != []
  {
    SectorsFromReads(v.sectors, f, n);
    FramesLength(v.GetSectorsFromOffset(f, n));
    FramesLength(v.sectors);
  }

  /** The first frame of a recorded verse is its first frame of audio, at position 0. */
  lemma {:induction false} FirstFrameIsPositionZero(v: Verse)
    requires NonEmptySectors(v.sectors) && v.sectors != []
    ensures v.Contains(v.FirstFrame())
    ensures v.FramesToPosition(v.FirstFrame()) == 0
    ensures v.Frames()[0] == v.FirstFrame()
  {
    OffsetInLocates(v.sectors, v.FirstFrame());
  }

  /** A frame held by one of the listed sectors is held by the list. */
  lemma {:induction false} HasInSectors(ss: seq<Sector>, i: int, x: int)
    requires 0 <= i < |ss| && ss[i].Has(x)
    ensures InSectors(ss, x)
  {
    if i > 0 {
      HasInSectors(ss[1..], i - 1, x);
    }
  }

  /** The last frame of a recorded verse is one of its frames. */
  lemma {:induction false} LastFrameInVerse(v: Verse)
    requires NonEmptySectors(v.sectors) && v.sectors != []
    ensures v.Contains(v.LastFrame())
  {
    HasInSectors(v.sectors, |v.sectors| - 1, v.LastFrame());
  }

  // ---------------------------------------------------------------------------
  // The mutable node

  class VerseNode {
    var placed: bool
    var marker: Marker
    var sectors: seq<Sector>

    constructor (placed: bool, marker: Marker, sectors: seq<Sector>)
      ensures View() == Verse(placed, marker, sectors)
    {
      this.placed := placed;
      this.marker := marker;
      this.sectors := sectors;
    }

    function View(): Verse
      reads this
    {
      Verse(placed, marker, sectors)
    }

    /** `clear()`: drops every sector and unplaces the verse; the marker stays. */
    method Clear()
      modifies this
      ensures View() == Verse(false, old(marker), [])
    {
      sectors := [];
      placed := false;
    }
  }
}
