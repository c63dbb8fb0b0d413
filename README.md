# Orature narration chapter model

A Dafny model of three parts of Orature, the Bible-translation recording tool:

- The narration screen's **chapter representation** (`ChapterRepresentation`).
  It keeps one slot (`VerseNode`) per verse and title of a chapter.
  Each slot is placed or not, carries an audio marker, and lists the sectors (inclusive frame ranges) of an ever-growing scratch tape that hold the slot's audio.
  The chapter's audio is the frames of the placed ("active") slots, verse after verse.
  The representation converts between tape frames and positions in that chapter audio, publishes markers, trims the tape, and hands out **reader connections**.
  A connection (`ChapterRepresentationConnection`) keeps a byte cursor, an optional lock to one active verse, and an open file.
  It seeks, reports positions and copies PCM bytes into a caller's buffer.
- The **audio markers** of `Markers.kt`: book, chapter, verse, chunk and unknown markers, their labels and namespaced labels, and the cues written for them.
- The list helpers of **chunk creation** (`CreateChunks.kt`): preallocating verses from the versification, overlaying verses parsed from the text, marking bridged verses, turning cues into verse ranges, and finding the verses a chunk overlaps.

Modules:

| module | file | models |
|---|---|---|
| `Wrappers` | `wrappers.dfy` | `Option`, `Result`, `Min`/`Max`, and Kotlin's truncating `Int` division |
| `Markers` | `markers.dfy` | the marker kinds, labels, formatted labels and cues, with parsers that read labels back |
| `VerseNodes` | `verse_node.dfy` | sectors, the value of a verse node and the mutable node |
| `Chapter` | `chapter.dfy` | pure coordinate arithmetic over a slot list: active verses, totals, chapter frames, trimming and marker updates |
| `ScratchTape` | `tape.dfy` | the tape as bytes, one read of a connection as a function, and the trimming drain loop |
| `Narration` | `narration.dfy` | the two classes, whose methods change slots, tape, registry and cursor in place |
| `CreateChunks` | `create_chunks.dfy` | the chunk-creation helpers |

Reference definitions:

- The chapter's audio is `ChapterFrames(active)`, the concatenation of every active verse's sector frames.
- A tape frame's location in the chapter is proved to be the index of the frame's first occurrence in that list.
- The frame at a chapter position is the list's element at that index, apart from the source's edge cases.
- A read is proved to deliver the bytes of the next frames of the verse.
- The tape that trimming writes is proved to be the bytes of `ChapterFrames`.

Some behaviour is modelled as the code is written, and the lemmas named here make it visible:

- `lockToVerse` tests the cursor's **byte** offset against the verse's **frames** (`Narration.LockTestsBytePosition`). The frame test it evidently means is `Narration.LockedFramePosition`; see "Findings".
- `updateTotalVerses` writes the `idx`-th active verse into slot `idx`. That is consistent only while the placed slots form a prefix of the slot list (`Chapter.UpdatedVersesOffPrefix`). The update it evidently means is `Chapter.RelocatedVerses`; see "Findings".
- `reset()` on a chapter without active verses sets the cursor to 0 before its lookup fails.

Successive reads of a connection are meant to return the chapter's audio once, in order. The code does not do that. A read of a one-sector verse from its first frame that ends inside the verse leaves the cursor on the last frame delivered, so the next read repeats that frame (`ScratchTape.ReadEndsOnLastFrameDelivered`). A read that crosses a gap between two sectors pulls the cursor back to the end of the first sector and then moves it by the bytes copied from the second, so it ends up to the gap's length short of the last frame delivered: the read may deliver the whole verse and still leave the cursor inside it, with no move to the next verse (`ScratchTape.GapReadStopsShort`). This model follows the code for reads. It gives `trim` the tape trimming is meant to write; see "Findings".

`VerseNode.kt` is not part of this model. Its members are modelled from how `ChapterRepresentation.kt` uses them:

- `firstFrame()` and `lastFrame()` are 0 for a node without sectors.
- `framesToPosition(f)` is 0 when no sector holds `f`.
- `getSectorsFromOffset(f, n)` returns the sectors covering at most `n` frames from `f`, clipped at both ends.
- `copyMarker(loc)` returns the node's marker moved to `loc`.

## Model

| member | source | states |
|---|---|---|
| Markers.Marker.ToCue | common/src/main/kotlin/org/wycliffeassociates/otter/common/data/audio/Markers.kt:50-52 | the cue's location is the marker's, and its name parses back into the marker's kind and label (the bare label for an unknown marker) |
| Markers.Marker.ToString | common/src/main/kotlin/org/wycliffeassociates/otter/common/data/audio/Markers.kt:63-65 | `toString` is the formatted label, from which kind and label parse back |
| Markers.Marker.Clone | common/src/main/kotlin/org/wycliffeassociates/otter/common/data/audio/Markers.kt:54 | `clone` returns an equal marker with the same label and location |
| Markers.Marker.WithLocation | common/src/main/kotlin/org/wycliffeassociates/otter/common/data/audio/Markers.kt:67-69 | a data-class copy at a new location keeps kind, label and formatted label, and only the location changes |
| Markers.UnknownFromCue | common/src/main/kotlin/org/wycliffeassociates/otter/common/data/audio/Markers.kt:57-58 | an unknown marker built from a cue has the cue's location |
| Markers.CueRoundTrip | common/src/main/kotlin/org/wycliffeassociates/otter/common/data/audio/Markers.kt:57-64 | the cue of an unknown marker built from a cue is that cue |
| Markers.FormattedLabelRoundTrip | common/src/main/kotlin/org/wycliffeassociates/otter/common/data/audio/Markers.kt:77-116 | every formatted label is its kind's `orature-…-` prefix followed by the label, and the prefixes tell the kinds apart |
| Markers.NatToStringParses | common/src/main/kotlin/org/wycliffeassociates/otter/common/data/audio/Markers.kt:93 | the decimal rendering of a number (`"$n"`) is non-empty, all digits, and parses back to the number |
| Markers.VerseLabelRoundTrip | common/src/main/kotlin/org/wycliffeassociates/otter/common/data/audio/Markers.kt:110-112 | a verse label (`"start"` or `"start-end"`) parses back into its start and end |
| Markers.VerseLabelsIdentify | common/src/main/kotlin/org/wycliffeassociates/otter/common/data/audio/Markers.kt:110-112 | two verse markers over non-negative verses share a label only if they cover the same verses |
| VerseNodes.VerseNode.constructor | common/src/main/kotlin/org/wycliffeassociates/otter/common/domain/narration/ChapterRepresentation.kt:111 | a new node holds the given flag, marker and sectors |
| VerseNodes.VerseNode.Clear | common/src/main/kotlin/org/wycliffeassociates/otter/common/domain/narration/ChapterRepresentation.kt:135 | `clear()` unplaces the node and drops its sectors, keeping its marker |
| VerseNodes.Verse.CopyMarker | common/src/main/kotlin/org/wycliffeassociates/otter/common/domain/narration/ChapterRepresentation.kt:162 | `copyMarker(loc)` moves the marker to `loc` and keeps its kind and label |
| VerseNodes.OffsetInLocates | common/src/main/kotlin/org/wycliffeassociates/otter/common/domain/narration/ChapterRepresentation.kt:275 | `framesToPosition(f)` is the index of `f`'s first occurrence among the verse's frames |
| VerseNodes.InSectorsIffInFrames | common/src/main/kotlin/org/wycliffeassociates/otter/common/domain/narration/ChapterRepresentation.kt:283 | `f in node` holds exactly when `f` is one of the node's frames |
| VerseNodes.TakeFramesReads | common/src/main/kotlin/org/wycliffeassociates/otter/common/domain/narration/ChapterRepresentation.kt:513 | taking `n` frames of a sector list gives the first `n` of its frames |
| VerseNodes.SectorsFromReads | common/src/main/kotlin/org/wycliffeassociates/otter/common/domain/narration/ChapterRepresentation.kt:513 | `getSectorsFromOffset(f, n)` gives the next `min(n, rest)` frames of the verse from `f`'s position, and nothing when no sector holds `f` |
| VerseNodes.SectorsFromBounded | common/src/main/kotlin/org/wycliffeassociates/otter/common/domain/narration/ChapterRepresentation.kt:513-515 | the sectors found never hold more than `n` frames, and are non-empty when the verse holds `f` and `n > 0` |
| VerseNodes.SectorsFromCrossesGap | common/src/main/kotlin/org/wycliffeassociates/otter/common/domain/narration/ChapterRepresentation.kt:513 | reading 5 frames from frame 8 of sectors `0..9`, `20..29` gives `8..9` and `20..22` |
| VerseNodes.FirstFrameIsPositionZero | common/src/main/kotlin/org/wycliffeassociates/otter/common/domain/narration/ChapterRepresentation.kt:161 | a recorded verse's first frame is its first frame of audio, at position 0 |
| Chapter.ActiveVerses | common/src/main/kotlin/org/wycliffeassociates/otter/common/domain/narration/ChapterRepresentation.kt:72-73 | the active verses are the placed slots, in slot order, and no more of them than slots |
| Chapter.ActiveMembers | common/src/main/kotlin/org/wycliffeassociates/otter/common/domain/narration/ChapterRepresentation.kt:72-73 | a verse is active exactly when it is a placed slot |
| Chapter.ActiveVersesAppend | common/src/main/kotlin/org/wycliffeassociates/otter/common/domain/narration/ChapterRepresentation.kt:72-73 | filtering keeps slot order over concatenated slot lists |
| Chapter.VersesWithRecordings | common/src/main/kotlin/org/wycliffeassociates/otter/common/domain/narration/ChapterRepresentation.kt:230-232 | one flag per slot, set exactly for a placed slot with frames |
| Chapter.NoRecordingsIffEmpty | common/src/main/kotlin/org/wycliffeassociates/otter/common/domain/narration/ChapterRepresentation.kt:68-69 | the chapter's total is 0 exactly when no slot reports a recording |
| Chapter.TotalFrames | common/src/main/kotlin/org/wycliffeassociates/otter/common/domain/narration/ChapterRepresentation.kt:67-69 | the sum of the active verses' lengths is, for well-formed slots, never negative and exactly the number of the chapter's frames |
| Chapter.FindVerse | common/src/main/kotlin/org/wycliffeassociates/otter/common/domain/narration/ChapterRepresentation.kt:281-285 | `findVerse` returns the first active verse holding the frame, or none when no verse holds it |
| Chapter.FindVerseIffInChapter | common/src/main/kotlin/org/wycliffeassociates/otter/common/domain/narration/ChapterRepresentation.kt:281-285 | a verse is found exactly when the frame is one of the chapter's frames |
| Chapter.LocationInChapter | common/src/main/kotlin/org/wycliffeassociates/otter/common/domain/narration/ChapterRepresentation.kt:266-279 | 0 when no active verse holds the frame; for well-formed verses never negative and at most the chapter's length (`LocationIsFirstOccurrence` proves it is the index of the frame's first occurrence among the chapter's frames) |
| Chapter.ChapterFramesLength | common/src/main/kotlin/org/wycliffeassociates/otter/common/domain/narration/ChapterRepresentation.kt:68-69 | the chapter's frames number the total of the active verses' lengths |
| Chapter.LocationIsFirstOccurrence | common/src/main/kotlin/org/wycliffeassociates/otter/common/domain/narration/ChapterRepresentation.kt:266-279 | the location in the chapter of a frame the chapter holds is the index of its first occurrence among the chapter's frames |
| Chapter.RelativeToAbsolute | common/src/main/kotlin/org/wycliffeassociates/otter/common/domain/narration/ChapterRepresentation.kt:292-314 | the reference for `relativeChapterToAbsolute`: with recorded active verses, every chapter position, including the edge cases before the start and past the end, maps to a frame some active verse holds |
| Chapter.FirstChapterFrame | common/src/main/kotlin/org/wycliffeassociates/otter/common/domain/narration/ChapterRepresentation.kt:298 | chapter position 0 is the first active verse's first frame |
| Chapter.RelativeOfLocation | common/src/main/kotlin/org/wycliffeassociates/otter/common/domain/narration/ChapterRepresentation.kt:266-314 | converting a frame to its chapter location and back gives the frame |
| Chapter.LocationOfRelative | common/src/main/kotlin/org/wycliffeassociates/otter/common/domain/narration/ChapterRepresentation.kt:266-314 | converting a chapter position to a frame and back gives the position, when no frame appears twice |
| Chapter.GetRangeOfMarker | common/src/main/kotlin/org/wycliffeassociates/otter/common/domain/narration/ChapterRepresentation.kt:316-326 | there is no range exactly when no active verse carries the marker's label; otherwise it spans the first such verse from its first to its last frame |
| Chapter.FirstWithLabel | common/src/main/kotlin/org/wycliffeassociates/otter/common/domain/narration/ChapterRepresentation.kt:321 | `find` on the label gives the first verse with that label |
| Chapter.RangeSpansVerse | common/src/main/kotlin/org/wycliffeassociates/otter/common/domain/narration/ChapterRepresentation.kt:323 | the range of a well-formed verse holds all of its audio |
| Chapter.PublishedMarkers | common/src/main/kotlin/org/wycliffeassociates/otter/common/domain/narration/ChapterRepresentation.kt:174-183 | one published marker per active verse, with that verse's marker kind and label |
| Chapter.PublishedLocation | common/src/main/kotlin/org/wycliffeassociates/otter/common/domain/narration/ChapterRepresentation.kt:174-183 | verse `k`'s published location is the total length of the verses before it |
| Chapter.InsertTitles | common/src/main/kotlin/org/wycliffeassociates/otter/common/domain/narration/ChapterRepresentation.kt:117-126 | a chapter title precedes the verse markers, preceded by a book title exactly in chapter 1 |
| Chapter.InsertTitlesKeepsVerses | common/src/main/kotlin/org/wycliffeassociates/otter/common/domain/narration/ChapterRepresentation.kt:117-126 | the verse markers follow the titles, unchanged and in order |
| Chapter.InitialVerses | common/src/main/kotlin/org/wycliffeassociates/otter/common/domain/narration/ChapterRepresentation.kt:101-115 | one unplaced, empty slot per title and per chunk, with a verse marker at 0 for each chunk |
| Chapter.NoActiveVerses | common/src/main/kotlin/org/wycliffeassociates/otter/common/domain/narration/ChapterRepresentation.kt:101-115 | a fresh chapter has no active verse and no frames |
| Chapter.LoadedVerses | common/src/main/kotlin/org/wycliffeassociates/otter/common/domain/narration/ChapterRepresentation.kt:135-138 | every slot is cleared, then slot `i` takes the `i`-th decoded node when there is one |
| Chapter.TrimFrom | common/src/main/kotlin/org/wycliffeassociates/otter/common/domain/narration/ChapterRepresentation.kt:214-226 | trimming keeps the slot count, and gives each active verse one sector starting where the active verses before it end |
| Chapter.TrimFromSlot | common/src/main/kotlin/org/wycliffeassociates/otter/common/domain/narration/ChapterRepresentation.kt:214-226 | a trimmed slot keeps its flag, marker and length |
| Chapter.TrimKeepsTotal | common/src/main/kotlin/org/wycliffeassociates/otter/common/domain/narration/ChapterRepresentation.kt:214-226 | trimming keeps the chapter's total and the number of active verses |
| Chapter.TrimCommutesWithActive | common/src/main/kotlin/org/wycliffeassociates/otter/common/domain/narration/ChapterRepresentation.kt:214-226 | trimming the slots and then filtering is filtering and then trimming |
| Chapter.TrimmedFramesContiguous | common/src/main/kotlin/org/wycliffeassociates/otter/common/domain/narration/ChapterRepresentation.kt:214-226 | after trimming, the chapter's frames are `start, start + 1, …` with no gaps |
| Chapter.TrimmedFramesDistinct | common/src/main/kotlin/org/wycliffeassociates/otter/common/domain/narration/ChapterRepresentation.kt:214-226 | after trimming, no tape frame appears twice among the chapter's frames |
| Chapter.TrimKeepsWellFormed | common/src/main/kotlin/org/wycliffeassociates/otter/common/domain/narration/ChapterRepresentation.kt:214-226 | trimming keeps every slot well formed and recorded |
| Chapter.TrimmedCoordinatesCoincide | common/src/main/kotlin/org/wycliffeassociates/otter/common/domain/narration/ChapterRepresentation.kt:188-226 | after trimming, a chapter position and its tape frame are the same number, both ways |
| Chapter.UpdateFrom | common/src/main/kotlin/org/wycliffeassociates/otter/common/domain/narration/ChapterRepresentation.kt:159-167 | the update loop keeps the slot count |
| Chapter.UpdatedVerses | common/src/main/kotlin/org/wycliffeassociates/otter/common/domain/narration/ChapterRepresentation.kt:159-167 | `updateTotalVerses` keeps the slot count |
| Chapter.UpdatedVersesOnPrefix | common/src/main/kotlin/org/wycliffeassociates/otter/common/domain/narration/ChapterRepresentation.kt:159-167 | when the placed slots form a prefix, updating only moves each active verse's marker to its chapter location |
| Chapter.UpdatedVersesOffPrefix | common/src/main/kotlin/org/wycliffeassociates/otter/common/domain/narration/ChapterRepresentation.kt:159-167 | otherwise an unplaced slot before a recorded verse becomes placed, without audio, and takes that verse's label |
| Chapter.UpdatedVersesSlots | common/src/main/kotlin/org/wycliffeassociates/otter/common/domain/narration/ChapterRepresentation.kt:159-167 | for any slots, every slot keeps its sectors; slot `i` below the number of active verses becomes placed with the `i`-th active verse's marker, moved; the other slots are unchanged |
| Chapter.UpdatedVersesLocations | common/src/main/kotlin/org/wycliffeassociates/otter/common/domain/narration/ChapterRepresentation.kt:159-167 | for well-formed slots, the update keeps them well formed and moves the `i`-th active verse's marker to that verse's chapter location |
| Chapter.RelocatedVerses | common/src/main/kotlin/org/wycliffeassociates/otter/common/domain/narration/ChapterRepresentation.kt:159-167 | the intended update: flags and sectors kept, each marker keeps its kind and label |
| Chapter.RelocatedVersesIntended | common/src/main/kotlin/org/wycliffeassociates/otter/common/domain/narration/ChapterRepresentation.kt:159-167 | the intended update puts every placed slot's marker at its verse's chapter location in any slot order, and equals `UpdatedVerses` when the placed slots form a prefix |
| Narration.RelocatedKeepsValid | common/src/main/kotlin/org/wycliffeassociates/otter/common/domain/narration/ChapterRepresentation.kt:159-167 | the intended update keeps valid slots valid without any condition on their order |
| ScratchTape.FrameOfBytes | common/src/main/kotlin/org/wycliffeassociates/otter/common/domain/narration/ChapterRepresentation.kt:393-394 | the frame holding byte `Bytes(f)` is `f` |
| ScratchTape.ReadCount | common/src/main/kotlin/org/wycliffeassociates/otter/common/domain/narration/ChapterRepresentation.kt:526-529 | `read` reports 0 for an empty buffer, -1 at the end of the tape, otherwise as many bytes as the buffer and the tape allow |
| ScratchTape.CopySector | common/src/main/kotlin/org/wycliffeassociates/otter/common/domain/narration/ChapterRepresentation.kt:524-542 | one pass of the copy loop writes only the window after the bytes already written, and never past the buffer |
| ScratchTape.CopySectorCopies | common/src/main/kotlin/org/wycliffeassociates/otter/common/domain/narration/ChapterRepresentation.kt:524-535 | a copy the tape and the buffer have room for puts the sector's bytes at the write offset |
| ScratchTape.CopySectors | common/src/main/kotlin/org/wycliffeassociates/otter/common/domain/narration/ChapterRepresentation.kt:521-543 | the copy loop writes only after the bytes already written, and never past the buffer |
| ScratchTape.CopySectorsDelivers | common/src/main/kotlin/org/wycliffeassociates/otter/common/domain/narration/ChapterRepresentation.kt:521-543 | over sectors that fit, every sector is copied whole, in order, and the cursor stays in the verse |
| ScratchTape.ReadVerse | common/src/main/kotlin/org/wycliffeassociates/otter/common/domain/narration/ChapterRepresentation.kt:497-549 | a read writes at most the buffer; outside the verse it changes nothing |
| ScratchTape.ReadVerseDelivers | common/src/main/kotlin/org/wycliffeassociates/otter/common/domain/narration/ChapterRepresentation.kt:497-549 | a read from a frame of the verse writes the next `min(buffer frames, frames left)` frames of the verse at the buffer's start, leaves the rest of the buffer alone, and leaves the cursor in the verse |
| ScratchTape.ReadVerseNoRoom | common/src/main/kotlin/org/wycliffeassociates/otter/common/domain/narration/ChapterRepresentation.kt:504-510 | a buffer without room for one frame gets nothing, and the cursor snaps to the verse's last frame |
| ScratchTape.ReadEndsOnLastFrameDelivered | common/src/main/kotlin/org/wycliffeassociates/otter/common/domain/narration/ChapterRepresentation.kt:521-542 | a read of a one-sector verse, from its first frame, that ends inside the verse leaves the cursor on the last frame delivered, not after it |
| ScratchTape.GapReadStopsShort | common/src/main/kotlin/org/wycliffeassociates/otter/common/domain/narration/ChapterRepresentation.kt:521-542 | a read across a one-frame gap between sectors 0..9 and 11..15, one byte per frame and a 15-byte buffer, delivers all fifteen frames but leaves the cursor on frame 14, inside the verse and short of its last frame |
| ScratchTape.AdvanceAfterRead | common/src/main/kotlin/org/wycliffeassociates/otter/common/domain/narration/ChapterRepresentation.kt:564-572 | the cursor moves only on an unlocked connection, only to the next active verse's first frame, and always does so when the read ended on a verse's last frame |
| ScratchTape.PcmBufferVerse | common/src/main/kotlin/org/wycliffeassociates/otter/common/domain/narration/ChapterRepresentation.kt:497-551 | a locked read, or one that did not reach the copy loop, is exactly `ReadVerse` |
| ScratchTape.VerseToReadFrom | common/src/main/kotlin/org/wycliffeassociates/otter/common/domain/narration/ChapterRepresentation.kt:486-494 | the first active verse holding the cursor, or the first active verse when none holds it |
| ScratchTape.VerseToReadFromIsFirst | common/src/main/kotlin/org/wycliffeassociates/otter/common/domain/narration/ChapterRepresentation.kt:487 | no earlier active verse holds the cursor's frame |
| ScratchTape.HasRemainingChapter | common/src/main/kotlin/org/wycliffeassociates/otter/common/domain/narration/ChapterRepresentation.kt:450-454 | unlocked, frames remain exactly when some active verse holds the cursor's frame and it is not the last active verse's last frame |
| ScratchTape.CleanTapeIsChapterAudio | common/src/main/kotlin/org/wycliffeassociates/otter/common/domain/narration/ChapterRepresentation.kt:194-212 | the tape trimming is meant to write is the bytes of the chapter's frames in order |
| ScratchTape.TrimPreservesAudio | common/src/main/kotlin/org/wycliffeassociates/otter/common/domain/narration/ChapterRepresentation.kt:188-226 | after trimming, the compacted tape has exactly the chapter's length, and reading the trimmed verses from it gives the old chapter audio |
| ScratchTape.DrainRepeatsFrames | common/src/main/kotlin/org/wycliffeassociates/otter/common/domain/narration/ChapterRepresentation.kt:194-212 | the drain loop as written writes frames 0, 1, 1, 2 for a verse recorded at frames 0..2, read through a two-byte buffer |
| ScratchTape.Drain | common/src/main/kotlin/org/wycliffeassociates/otter/common/domain/narration/ChapterRepresentation.kt:194-212 | the drain loop writes nothing once no frame remains, and each read adds at most one buffer, so `fuel` reads write at most `fuel` buffers |
| ScratchTape.SampleCleanTape | common/src/main/kotlin/org/wycliffeassociates/otter/common/domain/narration/ChapterRepresentation.kt:194-212 | the intended tape for that verse holds its three frames once each |
| Narration.RemoveFirst | common/src/main/kotlin/org/wycliffeassociates/otter/common/domain/narration/ChapterRepresentation.kt:598-604 | `list.remove(x)` leaves the list unchanged without `x`, and otherwise removes one element and adds none |
| Narration.RemoveFirstDistinct | common/src/main/kotlin/org/wycliffeassociates/otter/common/domain/narration/ChapterRepresentation.kt:602 | in a registry without repeats, removal removes exactly that connection and keeps the others |
| Narration.ChapterRepresentation.constructor | common/src/main/kotlin/org/wycliffeassociates/otter/common/domain/narration/ChapterRepresentation.kt:95-126 | the new chapter's slots are the initial slots over the scratch tape; it has no active verse, no frames, no connection, and its invariants hold |
| Narration.ChapterRepresentation.LoadFromSerializedVerses | common/src/main/kotlin/org/wycliffeassociates/otter/common/domain/narration/ChapterRepresentation.kt:128-142 | undecodable input changes nothing; otherwise the slots are `LoadedVerses`, and validity holds when the decoded nodes are valid |
| Narration.ChapterRepresentation.FinalizeVerse | common/src/main/kotlin/org/wycliffeassociates/otter/common/domain/narration/ChapterRepresentation.kt:144-151 | the tape grows by the recording, `end` is its length in frames, and the slots are the history's (or the old ones) updated and republished, and stay well formed when those were |
| Narration.ChapterRepresentation.OnVersesUpdated | common/src/main/kotlin/org/wycliffeassociates/otter/common/domain/narration/ChapterRepresentation.kt:153-157 | the slots are updated and the published markers sit at their verses' chapter locations; validity is kept when the placed slots form a prefix, and well-formedness always |
| Narration.ChapterRepresentation.UpdateTotalVerses | common/src/main/kotlin/org/wycliffeassociates/otter/common/domain/narration/ChapterRepresentation.kt:159-167 | the loop leaves `UpdatedVerses` of the old slots, keeps tape and registry, and keeps the slots well formed |
| Narration.ChapterRepresentation.AudioLocationToLocationInChapter | common/src/main/kotlin/org/wycliffeassociates/otter/common/domain/narration/ChapterRepresentation.kt:266-279 | the loop computes the frame's location in the chapter, the index of its first occurrence in the chapter's frames |
| Narration.ChapterRepresentation.RelativeChapterToAbsolute | common/src/main/kotlin/org/wycliffeassociates/otter/common/domain/narration/ChapterRepresentation.kt:292-314 | the sector walk returns the tape frame at the chapter position, with the source's edge cases |
| Narration.ChapterRepresentation.TapeFrames | common/src/main/kotlin/org/wycliffeassociates/otter/common/domain/narration/ChapterRepresentation.kt:295-296 | `scratchAudio.totalFrames`: the whole frames on the tape, the largest count whose bytes fit in it |
| Narration.ChapterRepresentation.Trim | common/src/main/kotlin/org/wycliffeassociates/otter/common/domain/narration/ChapterRepresentation.kt:188-228 | the tape becomes the chapter's audio, compacted; each active verse gets its one sector there; the total and validity are kept, no frame appears twice in the chapter, and the chapter's frames read back the old audio |
| Narration.ChapterRepresentation.TrimActiveVerses | common/src/main/kotlin/org/wycliffeassociates/otter/common/domain/narration/ChapterRepresentation.kt:214-228 | each active verse gets the single sector after the active verses before it |
| Narration.ChapterRepresentation.GetAudioFileReader | common/src/main/kotlin/org/wycliffeassociates/otter/common/domain/narration/ChapterRepresentation.kt:328-334 | a fresh, unlocked, closed connection at the start frame, registered at the end of the list, keeping the registry free of repeats |
| Narration.ChapterRepresentation.CloseConnections | common/src/main/kotlin/org/wycliffeassociates/otter/common/domain/narration/ChapterRepresentation.kt:336-344 | every registered connection ends closed and the registry ends empty |
| Narration.ChapterRepresentationConnection.constructor | common/src/main/kotlin/org/wycliffeassociates/otter/common/domain/narration/ChapterRepresentation.kt:346-363 | a new connection starts at byte `start * frameSize` (0 without a start), unlocked and not open |
| Narration.ChapterRepresentationConnection.AbsoluteToRelativeVerse | common/src/main/kotlin/org/wycliffeassociates/otter/common/domain/narration/ChapterRepresentation.kt:421-428 | an index naming no active verse gives 0 |
| Narration.VerseRelativeLocates | common/src/main/kotlin/org/wycliffeassociates/otter/common/domain/narration/ChapterRepresentation.kt:421-428 | inside a verse, a frame's relative position indexes that frame among the verse's frames |
| Narration.ChapterRepresentationConnection.AbsoluteToRelative | common/src/main/kotlin/org/wycliffeassociates/otter/common/domain/narration/ChapterRepresentation.kt:407-414 | a locked connection uses the locked verse's coordinates |
| Narration.ChapterRelativeLocates | common/src/main/kotlin/org/wycliffeassociates/otter/common/domain/narration/ChapterRepresentation.kt:407-414 | unlocked, a frame maps to the index of its first occurrence among the chapter's frames |
| Narration.ChapterRepresentationConnection.AbsoluteFramePosition | common/src/main/kotlin/org/wycliffeassociates/otter/common/domain/narration/ChapterRepresentation.kt:392-394 | the frame holding the cursor's byte: its first byte is at or before the cursor and the next frame starts after it |
| Narration.ChapterRepresentationConnection.FramePosition | common/src/main/kotlin/org/wycliffeassociates/otter/common/domain/narration/ChapterRepresentation.kt:396-397 | unlocked, the index of the cursor's frame among the chapter's frames; locked, its index among the verse's frames, whenever the chapter or the verse holds that frame |
| Narration.ChapterRepresentationConnection.ReaderTotalFrames | common/src/main/kotlin/org/wycliffeassociates/otter/common/domain/narration/ChapterRepresentation.kt:431-440 | unlocked, the chapter's total; locked, the verse's length, or nothing when the lock names no active verse |
| Narration.ChapterRepresentationConnection.HasRemaining | common/src/main/kotlin/org/wycliffeassociates/otter/common/domain/narration/ChapterRepresentation.kt:442-456 | fails exactly when `totalFrames` does; otherwise true exactly on an open connection with frames whose cursor is in the locked verse (the chapter, when unlocked) and not on its last frame |
| Narration.ChapterRepresentationConnection.LockToVerse | common/src/main/kotlin/org/wycliffeassociates/otter/common/domain/narration/ChapterRepresentation.kt:366-381 | `None` unlocks; a bad index changes nothing; otherwise the lock is set and the cursor is kept or moved to the verse's first frame |
| Narration.LockedPosition | common/src/main/kotlin/org/wycliffeassociates/otter/common/domain/narration/ChapterRepresentation.kt:374-378 | the cursor stays when the verse holds it, otherwise it goes to the verse's first frame |
| Narration.LockedFramePosition | common/src/main/kotlin/org/wycliffeassociates/otter/common/domain/narration/ChapterRepresentation.kt:373-376 | the intended cursor: kept when the verse holds the cursor's frame, otherwise the verse's first frame |
| Narration.LockedFramePositionInVerse | common/src/main/kotlin/org/wycliffeassociates/otter/common/domain/narration/ChapterRepresentation.kt:373-376 | with the frame test, a locked cursor always lies in its verse, and it is kept exactly when the verse holds its frame |
| Narration.LockTestsBytePosition | common/src/main/kotlin/org/wycliffeassociates/otter/common/domain/narration/ChapterRepresentation.kt:373-376 | a cursor at byte 12 (frame 6 at two bytes per frame) inside a verse at frames 0..9 is still moved to frame 0 |
| Narration.ChapterRepresentationConnection.Reset | common/src/main/kotlin/org/wycliffeassociates/otter/common/domain/narration/ChapterRepresentation.kt:383-391 | the cursor goes to the first frame of the locked verse (or of the first active verse); without active verses, or with a bad lock, the call fails |
| Narration.ChapterRepresentationConnection.LocationInVerseToLocationInChapter | common/src/main/kotlin/org/wycliffeassociates/otter/common/domain/narration/ChapterRepresentation.kt:574-577 | a bad index fails; otherwise the sample is shifted by where the verse starts in the chapter |
| Narration.ChapterRepresentationConnection.Seek | common/src/main/kotlin/org/wycliffeassociates/otter/common/domain/narration/ChapterRepresentation.kt:579-591 | the cursor goes to the tape frame at the chapter position, or at the locked verse's start plus the sample; a bad lock fails |
| Narration.SeekThenFramePosition | common/src/main/kotlin/org/wycliffeassociates/otter/common/domain/narration/ChapterRepresentation.kt:579-591 | unlocked, seeking to a chapter position and then reading the position gives it back |
| Narration.FramePositionThenSeek | common/src/main/kotlin/org/wycliffeassociates/otter/common/domain/narration/ChapterRepresentation.kt:579-591 | unlocked, seeking to the reported position lands on the cursor's frame |
| Narration.LockedSeekThenFramePosition | common/src/main/kotlin/org/wycliffeassociates/otter/common/domain/narration/ChapterRepresentation.kt:579-591 | locked, seeking to a position inside the verse and reading the position gives it back |
| Narration.VerseSeekRoundTrip | common/src/main/kotlin/org/wycliffeassociates/otter/common/domain/narration/ChapterRepresentation.kt:574-591 | chapter position `k` past a verse's start is the verse's frame at position `k` |
| Narration.ChapterRepresentationConnection.GetPcmBuffer | common/src/main/kotlin/org/wycliffeassociates/otter/common/domain/narration/ChapterRepresentation.kt:462-484 | no frames: nothing is read; a bad lock fails; otherwise the read is `PcmBufferVerse` on the locked verse or on `VerseToReadFrom` |
| Narration.ChapterRepresentationConnection.GetPcmBufferVerse | common/src/main/kotlin/org/wycliffeassociates/otter/common/domain/narration/ChapterRepresentation.kt:496-551 | fails before `open`; otherwise buffer, cursor and count are those of `PcmBufferVerse` |
| Narration.ChapterRepresentationConnection.CopySectorsInto | common/src/main/kotlin/org/wycliffeassociates/otter/common/domain/narration/ChapterRepresentation.kt:521-543 | the copy loop leaves the buffer, cursor and count of `CopySectors` |
| Narration.CopySectorInto | common/src/main/kotlin/org/wycliffeassociates/otter/common/domain/narration/ChapterRepresentation.kt:524-542 | one loop pass leaves what `CopySector` describes |
| Narration.WriteBytes | common/src/main/kotlin/org/wycliffeassociates/otter/common/domain/narration/ChapterRepresentation.kt:531 | `arraycopy` overwrites the window at the offset and nothing else |
| Narration.ChapterRepresentationConnection.AdjustPositionToNextVerse | common/src/main/kotlin/org/wycliffeassociates/otter/common/domain/narration/ChapterRepresentation.kt:564-572 | the cursor changes as `AdvanceAfterRead` says |
| Narration.ChapterRepresentationConnection.Open | common/src/main/kotlin/org/wycliffeassociates/otter/common/domain/narration/ChapterRepresentation.kt:593-596 | the file is open; a connection that was open is released first, leaving the registry |
| Narration.ChapterRepresentationConnection.Release | common/src/main/kotlin/org/wycliffeassociates/otter/common/domain/narration/ChapterRepresentation.kt:598-604 | the file is closed and the connection leaves the registry, which stays free of repeats |
| Narration.ChapterRepresentationConnection.Close | common/src/main/kotlin/org/wycliffeassociates/otter/common/domain/narration/ChapterRepresentation.kt:606-608 | the same as `release` |
| CreateChunks.SortBy | common/src/main/kotlin/org/wycliffeassociates/otter/common/domain/content/CreateChunks.kt:210 | the sort keeps length and elements |
| CreateChunks.SortBySorted | common/src/main/kotlin/org/wycliffeassociates/otter/common/domain/content/CreateChunks.kt:210 | the sort orders by the key |
| CreateChunks.SortBySortedIdentity | common/src/main/kotlin/org/wycliffeassociates/otter/common/domain/content/CreateChunks.kt:210 | a list already in order is left unchanged |
| CreateChunks.PreallocateVerses | common/src/main/kotlin/org/wycliffeassociates/otter/common/domain/content/CreateChunks.kt:237-261 | one verse per number `1..count` (none for a count below 1), with sort, start and end that number, empty text, the USFM format and the draft number |
| CreateChunks.PreallocatedNotBridged | common/src/main/kotlin/org/wycliffeassociates/otter/common/domain/content/CreateChunks.kt:237-261 | marking preallocated verses changes nothing |
| CreateChunks.MarkBridgedVerses | common/src/main/kotlin/org/wycliffeassociates/otter/common/domain/content/CreateChunks.kt:209-223 | the array ends as `MarkedBridges` of its old contents |
| CreateChunks.MarkBridges | common/src/main/kotlin/org/wycliffeassociates/otter/common/domain/content/CreateChunks.kt:211-222 | the marking loop leaves `Bridged` of the sorted list |
| CreateChunks.MarkedBridgesFlags | common/src/main/kotlin/org/wycliffeassociates/otter/common/domain/content/CreateChunks.kt:209-223 | marking sorts by `sort`, changes only the bridged flag, never clears it, and sets it exactly after an entry that spans several verses |
| CreateChunks.MarkedBridgesIdempotent | common/src/main/kotlin/org/wycliffeassociates/otter/common/domain/content/CreateChunks.kt:209-223 | marking twice equals marking once |
| CreateChunks.FindByStart | common/src/main/kotlin/org/wycliffeassociates/otter/common/domain/content/CreateChunks.kt:184 | the first text verse with that start, or none when no verse has it |
| CreateChunks.OverlayOne | common/src/main/kotlin/org/wycliffeassociates/otter/common/domain/content/CreateChunks.kt:184-195 | without a match the verse is unchanged; with one it takes the match's text, start, end and flag, and keeps its other fields |
| CreateChunks.OverlayVerses | common/src/main/kotlin/org/wycliffeassociates/otter/common/domain/content/CreateChunks.kt:181-199 | the result is every preallocated verse overlaid, then sorted and marked |
| CreateChunks.CueRanges | common/src/main/kotlin/org/wycliffeassociates/otter/common/domain/content/CreateChunks.kt:374-377 | range `i` is numbered `i + 1`, starts at cue `i`, ends where the next range starts, and the last ends at `Int.MAX_VALUE` |
| CreateChunks.MapCuesToRanges | common/src/main/kotlin/org/wycliffeassociates/otter/common/domain/content/CreateChunks.kt:371-379 | the loop builds `CueRanges` over the cues in the order given |
| CreateChunks.UnsortedCuesGiveInvertedRange | common/src/main/kotlin/org/wycliffeassociates/otter/common/domain/content/CreateChunks.kt:372-376 | cues at 10 and then 5 give a first range from 10 to 5 |
| CreateChunks.MapSortedCuesToRanges | common/src/main/kotlin/org/wycliffeassociates/otter/common/domain/content/CreateChunks.kt:371-379 | the ranges are built over the cues sorted by location |
| CreateChunks.SortedCueRangesOrdered | common/src/main/kotlin/org/wycliffeassociates/otter/common/domain/content/CreateChunks.kt:371-379 | with the cues sorted, every range starts no later than it ends |
| CreateChunks.OverlapsIffIntersect | common/src/main/kotlin/org/wycliffeassociates/otter/common/domain/content/CreateChunks.kt:339-360 | for well-ordered ranges, the three tests hold exactly when chunk and verse intersect |
| CreateChunks.OverlappedSortsMembers | common/src/main/kotlin/org/wycliffeassociates/otter/common/domain/content/CreateChunks.kt:339-360 | a sort is collected exactly when some overlapped verse has it |
| CreateChunks.FindVerseRange | common/src/main/kotlin/org/wycliffeassociates/otter/common/domain/content/CreateChunks.kt:332-369 | no markers give nothing; otherwise the overlapped verses' sorts in marker order, or the first marker's sort when none overlaps |
| CreateChunks.VerseRangeFound | common/src/main/kotlin/org/wycliffeassociates/otter/common/domain/content/CreateChunks.kt:332-369 | with markers, the result is never empty, holds only marker sorts, and holds every overlapped verse's sort |

## Left out

- File and JSON I/O: reading and writing the verses file, the scratch file and the chunk file. Decoding becomes an `Option` parameter of `LoadFromSerializedVerses`, and the recorder's new bytes a parameter of `FinalizeVerse`.
- `NarrationHistory.finalizeVerse` is not part of this model. Its result is a parameter of `FinalizeVerse`.
- The `PublishSubject` stream: `OnVersesUpdated` and `FinalizeVerse` return the markers they would publish.
- `@Synchronized` and `synchronized` blocks: the model is sequential.
- `getCompletionProgress` returns a `Double` (floating point).
- `supportsTimeShifting` is a constant `false`.
- `adjustPositionToNextSector` is never called.
- Slots are modelled as values. The source's aliasing of one `VerseNode` object between slot list, active list and history is not captured: `trimActiveVerses`, for example, rewrites the nodes' sector lists through the active list.
- `Content` objects are values too. `markBridgedVerses` setting a flag on an object that is also in the preallocated list is not captured. Only the fields the helpers read or write are kept (not `type`, `selectedTake` and the other fields).
- `createChunksFromVerses`, `createUserDefinedChunks`, `getVersesFromText`, `buildChunkContent` and `writeChunkFile` rely on the versification service, the workbook, the resource container and files.
- `Int` overflow in `framesToCopy * frameSizeInBytes` and in sums of frame counts is not modelled. Integers are unbounded; `Int.MAX_VALUE` appears only as the constant end of the last cue range.
- `RandomAccessFile` is the tape as a byte sequence. A negative `arraycopy` length (the -1 at end of file) is caught by the source and changes nothing, as in the model.
- ScratchTape.Drain: the number of reads of the drain loop is bounded by a `fuel` parameter. It models the loop only for the reads it is given fuel for.
- Narration.ChapterRepresentationConnection.AdjustPositionToNextVerse: it takes the verse's index. The source looks the node up with `indexOf`; the node is always an active verse, so the index is the one the caller read from.
- Narration.ChapterRepresentationConnection.AbsoluteToRelativeVerse and AbsoluteToRelative: their locating properties hold only for a valid chapter, so they are stated by `VerseRelativeLocates` and `ChapterRelativeLocates` rather than by the functions' own contracts.
- Narration.ChapterRepresentation.Trim: it writes the intended compacted tape, not the drain loop's output (see Findings).

## Findings

| source | as written | input that shows it | evidently intended | confidence | as-written member | corrected member |
|---|---|---|---|---|---|---|
| common/src/main/kotlin/org/wycliffeassociates/otter/common/domain/narration/ChapterRepresentation.kt:194-212 | `trimScratchAudio` writes whatever successive reads return. A read that ends inside a verse leaves the cursor on the last frame it delivered, or, when it crossed a gap between sectors, up to the gap's length short of it, so the next read delivers those frames again | one verse at frames 0..2, one byte per frame, a buffer of 2 bytes: the new tape is frames 0, 1, 1, 2, while `trimActiveVerses` then assigns the verse the sector 0..2 | the new tape holds each frame of the chapter once, in chapter order, so the trimmed sectors address the old audio | medium, not executed | ScratchTape.DrainRepeatsFrames | ScratchTape.TrimPreservesAudio |
| common/src/main/kotlin/org/wycliffeassociates/otter/common/domain/content/CreateChunks.kt:371-379 | `cues.sortedBy { it.location }` returns a sorted copy, which is dropped; the ranges follow the cues in the order given | cues at 10 and then 5: the first range runs from 10 to 5 | the ranges follow the cues in location order, and each starts no later than it ends | high, not executed | CreateChunks.UnsortedCuesGiveInvertedRange | CreateChunks.SortedCueRangesOrdered |
| common/src/main/kotlin/org/wycliffeassociates/otter/common/domain/narration/ChapterRepresentation.kt:373-376 | `lockToVerse` tests `position !in node` with the cursor's byte offset, while the node holds frames | two bytes per frame, a cursor at byte 12 (frame 6), a verse at frames 0..9: the cursor is moved to frame 0 although the verse holds it | the cursor moves only when it lies outside the verse, as the comment beside the test says | high, not executed | Narration.LockTestsBytePosition | Narration.LockedFramePositionInVerse |
| common/src/main/kotlin/org/wycliffeassociates/otter/common/domain/narration/ChapterRepresentation.kt:159-167 | `updateTotalVerses` writes the `idx`-th active verse into slot `idx` of all slots, with slot `idx`'s sectors | an unplaced slot 0 before a placed slot 1 at frames 0..9: slot 0 becomes placed, with no audio and the label of verse 2 | each placed slot keeps its place and only its marker moves to the verse's chapter location | high, not executed | Chapter.UpdatedVersesOffPrefix | Chapter.RelocatedVersesIntended |
