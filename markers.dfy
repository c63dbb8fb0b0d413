/**
 * Audio markers: the closed set of labelled points in a recording (book title,
 * chapter title, verse or verse bridge, chunk, or a marker of unknown kind).
 * Markers are immutable values; `label` is the bare identifier ("3", "3-5")
 * and `formattedLabel` adds the per-kind namespace prefix written into cues.
 */
module Markers {
  import opened Wrappers

  /** A cue as stored in an audio file: a location and a (formatted) label. */
  datatype AudioCue = AudioCue(location: int, name: string)

  datatype MarkerKind = UnknownKind | BookKind | ChapterKind | VerseKind | ChunkKind

  const BookPrefix: string := "orature-book-"
  const ChapterPrefix: string := "orature-chapter-"
  const VersePrefix: string := "orature-vm-"
  const ChunkPrefix: string := "orature-chunk-"

  datatype Marker =
    | UnknownMarker(location: int, name: string)
    | BookMarker(bookSlug: string, location: int)
    | ChapterMarker(chapterNumber: int, location: int)
    | VerseMarker(start: int, end: int, location: int)
    | ChunkMarker(chunk: int, location: int)
  {
    function Kind(): MarkerKind {
      match this
      case UnknownMarker(_, _) => UnknownKind
      case BookMarker(_, _) => BookKind
      case ChapterMarker(_, _) => ChapterKind
      case VerseMarker(_, _, _) => VerseKind
      case ChunkMarker(_, _) => ChunkKind
    }

    /** The bare label: the slug, the number, or the verse range "start" / "start-end". */
    function Label(): string {
      match this
      case UnknownMarker(_, l) => l
      case BookMarker(slug, _) => slug
      case ChapterMarker(n, _) => IntToString(n)
      case VerseMarker(s, e, _) => VerseLabel(s, e)
      case ChunkMarker(c, _) => IntToString(c)
    }

    /** The namespace prefix of this kind of marker; unknown markers have none. */
    function Prefix(): string {
      match this
      case UnknownMarker(_, _) => ""
      case BookMarker(_, _) => BookPrefix
      case ChapterMarker(_, _) => ChapterPrefix
      case VerseMarker(_, _, _) => VersePrefix
      case ChunkMarker(_, _) => ChunkPrefix
    }

    function FormattedLabel(): string {
      Prefix() + Label()
    }

    /** The cue written for this marker carries its location and its namespaced label. */
    function ToCue(): (c: AudioCue)
      ensures c.location == location
      ensures Kind() != UnknownKind ==> ParseFormattedLabel(c.name) == Some((Kind(), Label()))
      ensures Kind() == UnknownKind ==> c.name == Label()
    {
      FormattedLabelRoundTrip(this);
      AudioCue(location, FormattedLabel())
    }

    /** `clone()` is a data-class `copy()`: an equal value. */
    function Clone(): (r: Marker)
      ensures r == this && r.Label() == Label() && r.location == location
    {
      this
    }

    /** `toString()` is the formatted label, from which kind and label can be read back. */
    function ToString(): (s: string)
      ensures Kind() != UnknownKind ==> ParseFormattedLabel(s) == Some((Kind(), Label()))
      ensures Kind() == UnknownKind ==> s == Label()
    {
      FormattedLabelRoundTrip(this);
      FormattedLabel()
    }

    /** The marker moved to `loc`: same kind, same fields, same labels. */
    function WithLocation(loc: int): (r: Marker)
      ensures r.location == loc && r.Kind() == Kind()
      ensures r.Label() == Label() && r.FormattedLabel() == FormattedLabel()
      ensures r.(location := location) == this
    {
      this.(location := loc)
    }
  }

  /** The secondary constructor `UnknownMarker(cue)`. */
  function UnknownFromCue(cue: AudioCue): (m: Marker)
    ensures m.Kind() == UnknownKind && m.location == cue.location
  {
    UnknownMarker(cue.location, cue.name)
  }

  lemma {:induction false} CueRoundTrip(cue: AudioCue)
    ensures UnknownFromCue(cue).ToCue() == cue
  {
  }

  // ---------------------------------------------------------------------------
  // Decimal rendering of integers ("$n" in Kotlin string templates) and its parser

  function DigitChar(d: int): (c: char)
    requires 0 <= d < 10
    ensures IsDigit(c) && c as int - '0' as int == d
  {
    ('0' as int + d) as char
  }

  predicate IsDigit(c: char) { '0' <= c <= '9' }

  function DigitValue(c: char): (d: nat)
    requires IsDigit(c)
    ensures d < 10 && DigitChar(d) == c
  {
    c as int - '0' as int
  }

  function NatToString(n: nat): string
    decreases n
  {
    if n < 10 then [DigitChar(n)] else NatToString(n / 10) + [DigitChar(n % 10)]
  }

  function IntToString(i: int): string {
    if i < 0 then "-" + NatToString(-i) else NatToString(i)
  }

  function ParseDigits(s: string): nat
    requires forall k :: 0 <= k < |s| ==> IsDigit(s[k])
  {
    if s == [] then 0 else ParseDigits(s[..|s| - 1]) * 10 + DigitValue(s[|s| - 1])
  }

  /** Reads a non-empty string of decimal digits; anything else is `None`. */
  function ParseNat(s: string): Option<nat> {
    if s != [] && forall k :: 0 <= k < |s| ==> IsDigit(s[k]) then Some(ParseDigits(s)) else None
  }

  lemma {:induction false} NatToStringParses(n: nat)
    ensures NatToString(n) != []
    ensures forall k :: 0 <= k < |NatToString(n)| ==> IsDigit(NatToString(n)[k])
    ensures ParseNat(NatToString(n)) == Some(n)
    decreases n
  {
    var s := NatToString(n);
    if n >= 10 {
      NatToStringParses(n / 10);
      var p := NatToString(n / 10);
      assert s == p + [DigitChar(n % 10)];
      assert s[..|s| - 1] == p;
      assert DigitValue(s[|s| - 1]) == n % 10;
      assert ParseDigits(s) == ParseDigits(p) * 10 + n % 10;
    } else {
      assert s == [DigitChar(n)];
      assert s[..0] == [];
      assert ParseDigits(s) == ParseDigits([]) * 10 + DigitValue(s[0]);
    }
  }

  // ---------------------------------------------------------------------------
  // Verse labels: "start" for a single verse, "start-end" for a bridge

  function VerseLabel(start: int, end: int): string {
    if end != start then IntToString(start) + "-" + IntToString(end) else IntToString(start)
  }

  /** The index of the first `c` in `s`, or `|s|` when there is none. */
  function FirstIndexOf(s: string, c: char): (k: nat)
    ensures k <= |s|
    ensures forall j :: 0 <= j < k ==> s[j] != c
    ensures k < |s| ==> s[k] == c
  {
    if s == [] then 0 else if s[0] == c then 0 else 1 + FirstIndexOf(s[1..], c)
  }

  /** Reads a verse label back into its range; a single number is the range (n, n). */
  function ParseVerseLabel(s: string): Option<(nat, nat)> {
    var k := FirstIndexOf(s, '-');
    if k == |s| then
      (match ParseNat(s) case Some(n) => Some((n, n)) case None => None)
    else
      match (ParseNat(s[..k]), ParseNat(s[k + 1..]))
      case (Some(a), Some(b)) => Some((a, b))
      case _ => None
  }

  lemma {:induction false} VerseLabelRoundTrip(start: nat, end: nat)
    ensures ParseVerseLabel(VerseLabel(start, end)) == Some((start, end))
  {
    NatToStringParses(start);
    NatToStringParses(end);
    var a := NatToString(start);
    if end != start {
      var s := a + "-" + NatToString(end);
      assert forall j :: 0 <= j < |a| ==> s[j] == a[j] && s[j] != '-';
      assert s[|a|] == '-';
      assert FirstIndexOf(s, '-') == |a|;
      assert s[..|a|] == a;
      assert s[|a| + 1..] == NatToString(end);
    } else {
      assert forall j :: 0 <= j < |a| ==> a[j] != '-';
    }
  }

  /** Two verse markers over non-negative verse numbers have the same label only when they cover the same verses. */
  lemma {:induction false} VerseLabelsIdentify(m1: Marker, m2: Marker)
    requires m1.VerseMarker? && m2.VerseMarker?
    requires m1.start >= 0 && m1.end >= 0 && m2.start >= 0 && m2.end >= 0
    requires m1.Label() == m2.Label()
    ensures m1.start == m2.start && m1.end == m2.end
  {
    VerseLabelRoundTrip(m1.start, m1.end);
    VerseLabelRoundTrip(m2.start, m2.end);
  }

  // ---------------------------------------------------------------------------
  // Formatted labels

  /** Splits a namespaced label into its marker kind and bare label. */
  function ParseFormattedLabel(s: string): Option<(MarkerKind, string)> {
    if BookPrefix <= s then Some((BookKind, s[|BookPrefix|..]))
    else if ChapterPrefix <= s then Some((ChapterKind, s[|ChapterPrefix|..]))
    else if VersePrefix <= s then Some((VerseKind, s[|VersePrefix|..]))
    else if ChunkPrefix <= s then Some((ChunkKind, s[|ChunkPrefix|..]))
    else None
  }

  lemma {:induction false} FormattedLabelRoundTrip(m: Marker)
    ensures m.Kind() != UnknownKind ==> ParseFormattedLabel(m.FormattedLabel()) == Some((m.Kind(), m.Label()))
    ensures m.Kind() == UnknownKind ==> m.FormattedLabel() == m.Label()
  {
    var s := m.FormattedLabel();
    var p := m.Prefix();
    assert s[..|p|] == p;
    assert s[|p|..] == m.Label();
    match m
    case UnknownMarker(_, _) =>
    case BookMarker(_, _) =>
    case ChapterMarker(_, _) =>
      assert s[8] == 'c';
    case VerseMarker(_, _, _) =>
      assert s[8] == 'v';
    case ChunkMarker(_, _) =>
      assert s[8] == 'c' && s[10] == 'u';
  }
}
