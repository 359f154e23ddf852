# Hologram video disc: a Dafny model

This project models the video-disc playback engine of the Minecraft
hologram plugin, and three small pieces around it.

- **The video player** (`VideoPlayer`). It loads a directory of image
  frames into an animation and keeps one playback session per jukebox
  position. On every server tick it advances each session: it renders the
  frame that the elapsed ticks select, or it ends the session. Rendering
  turns a width × height grid of RGBA cells into a keyed display group. The
  group has one forward entry per visible cell, plus a backward twin when the
  display is double-sided.
- **The disc item** (`Disc`): how the video disc is created and which items
  count as one.
- **The frame extractor** (`extract_frames`, a Python script). It chooses
  which frames of a video to keep and names them `frame_000000.png`,
  `frame_000001.png`, … in the order they are written. The player later
  loads them in that order.
- **The 3D-model commands and the change-shader gesture**: the shader cycle
  and its names, the argument handling of `/3dsummon` and `/3dremove`, and
  their tab completers.

Modules, one per file:

| file | module | what it holds |
|---|---|---|
| `wrappers.dfy` | `Wrappers` | `Option` |
| `sequences.dfy` | `Sequences` | subsequences, shared by the two filters |
| `text.dfy` | `Text` | Kotlin string order over UTF-16 code units, ASCII case folding, decimal and zero-padded formatting, `joinToString` |
| `disc.dfy` | `Disc` | the disc item |
| `frames.dfy` | `Frames` | colours, frames, display groups, the cell loops of the renderer |
| `schedule.dfy` | `Schedule` | the frame-index and finish arithmetic of `update` |
| `frame_store.dfy` | `FrameStore` | the file filter, the sort by name, the decoding loop's result |
| `player.dfy` | `Player` | the class `VideoPlayer` and the per-tick pass |
| `extractor.dfy` | `Extractor` | `extract_frames` |
| `mountainray.dfy` | `Mountainray` | shader cycle, commands, completers |

How host services appear in the model:

- The current tick is a parameter.
- The frames directory is a value. It records whether the directory exists,
  whether it is a directory, and its listing. Each entry carries the frame
  that decoding and resizing it yields, or `None` when that throws.
- Whether the block at a position is still a jukebox with a `Jukebox` state
  is one oracle: the set `standing` of positions where it is.
- A render submission is recorded per display identity, as the last group
  submitted under it (`VideoPlayer.submitted`). Sessions are keyed by block
  position alone, as the source keys them by the position vector, so the
  world is not part of the key.
- Configuration values (`loop`, `double_sided`, `supported_formats`,
  `use_custom_disc`, `accept_regular_discs`) are parameters. The frame rate
  and the grid size are fixed when the player is built, as the source reads
  them once. `BadAppleConfig.kt` sets the defaults in `setDefaults` (lines
  33, 37 and 49 for `loop`, `double_sided` and `supported_formats`; lines 58
  and 68 for `use_custom_disc` and `accept_regular_discs`), and its getters
  fall back to the same values (lines 86, 90, 102 and 112). Only the default
  formats, `png`, `jpg` and `jpeg`, appear in the model, as
  `FrameStore.DefaultFormats`.

## Model

Source paths are relative to the repository root.

| member | source | states |
|---|---|---|
| Disc.IsDisc | src/main/java/com/heledron/hologram/disc_player/Disc.kt:32-41 | An item that is not `MUSIC_DISC_BLOCKS` is rejected under every setting. With regular discs accepted, every `MUSIC_DISC_BLOCKS` item is accepted. Otherwise an item is accepted exactly when it has meta whose disc tag is present and true. |
| Disc.CreateDisc | src/main/java/com/heledron/hologram/disc_player/Disc.kt:14-30 | The corrected disc: a `MUSIC_DISC_BLOCKS` item. It has meta exactly when the host supplied meta, and then it has the name, the lore, and the disc tag set to true on top of the existing tags. |
| Disc.CreateDiscAsWritten | src/main/java/com/heledron/hologram/disc_player/Disc.kt:14-30 | The same, with the name and lore literals as the source spells them. |
| Disc.AsWrittenTextIsUnformatted | src/main/java/com/heledron/hologram/disc_player/Disc.kt:19-23 | As written, the created name starts with U+0E22 U+0E07 and not with a formatting code, and no lore line starts with one. |
| Disc.CreatedDiscIsFormatted | src/main/java/com/heledron/hologram/disc_player/Disc.kt:19-23 | With the intended spelling, the name carries the gold code (U+00A7 then `6`) and every lore line the grey code (U+00A7 then `7`). |
| Disc.SpellingDoesNotAffectAcceptance | src/main/java/com/heledron/hologram/disc_player/Disc.kt:14-41 | The two spellings give the same material and the same acceptance under either setting. |
| Disc.CreatedDiscIsAccepted | src/main/java/com/heledron/hologram/disc_player/Disc.kt:15-40 | A created disc is accepted whenever the host gave it meta, and always when regular discs are accepted. Without meta and in strict mode it is rejected. |
| Disc.GetDiscKey | src/main/java/com/heledron/hologram/disc_player/Disc.kt:12-43 | The key handed out is the plugin-namespaced `music_disc` key, the same one `createDisc` writes and `isDisc` reads. |
| Disc.DiscKeyDecides | src/main/java/com/heledron/hologram/disc_player/Disc.kt:25-43 | Tagging and checking use the same key: writing `b` under `getDiscKey()` makes the strict check answer exactly `b`, whatever else the container holds. |
| Text.Lower | src/main/java/com/heledron/hologram/disc_player/BadApplePlayer.kt:59 | `lowercase()` keeps the length and lowers each ASCII letter. |
| Text.StartsWithIgnoringCase | src/main/java/com/heledron/hologram/model3d/setupMountainray.kt:104 | `startsWith(prefix, true)` holds exactly when the prefix fits and the start of the string lower-cases to the same text as the prefix. |
| Text.LexLess | src/main/java/com/heledron/hologram/disc_player/BadApplePlayer.kt:60 | The order `sortedBy { it.name }` uses: lexicographic, a proper prefix first, characters compared by their UTF-16 code units. |
| Text.LexLessIsUtf16Order | src/main/java/com/heledron/hologram/disc_player/BadApplePlayer.kt:60 | `LexLess` holds exactly when the UTF-16 encoding of the first name comes before that of the second, code unit by code unit, as Kotlin's `String.compareTo` compares them. |
| Text.LexTotal | src/main/java/com/heledron/hologram/disc_player/BadApplePlayer.kt:60 | The string order that `sortedBy { it.name }` uses is total. With irreflexivity and transitivity it is a strict order. |
| Text.LexLessTransitive | src/main/java/com/heledron/hologram/disc_player/BadApplePlayer.kt:60 | The string order is transitive. |
| Text.ZeroPaddedValue | src/main/resources/disc-player/extract_video_frames.py:74 | Reading back a zero-padded counter gives the counter, so padding loses nothing. |
| Text.FixedDigitsOrdered | src/main/resources/disc-player/extract_video_frames.py:74 | For counters below 10^width, fixed-width digit strings are ordered as the numbers are. |
| Text.ZeroPadded | src/main/resources/disc-player/extract_video_frames.py:74 | The `06d` rendering: the decimal digits of the counter, left-padded with zeros to the width. Its properties are stated by the next two rows and by `Text.ZeroPaddedValue`. |
| Text.ZeroPaddedWidth | src/main/resources/disc-player/extract_video_frames.py:74 | The rendering has at least the width, and is longer only when the counter itself needs more digits, in which case it is unpadded. |
| Text.Join | src/main/java/com/heledron/hologram/model3d/setupMountainray.kt:82 | `joinToString(sep)` is as long as the items together plus one separator per gap; no items give the empty string. Where each piece goes is stated by the next four rows. |
| Text.ItemOffsetClosedForm | src/main/java/com/heledron/hologram/model3d/setupMountainray.kt:82 | Item `i` of a join starts after the items before it and one separator for each of them: `TotalLength(items[..i]) + i * |sep|`. |
| Text.JoinPlacesItems | src/main/java/com/heledron/hologram/model3d/setupMountainray.kt:82 | Every item of the joined text sits, unchanged, at its offset. |
| Text.JoinPlacesSeparators | src/main/java/com/heledron/hologram/model3d/setupMountainray.kt:82 | Right after each item but the last comes exactly `sep`; the next item starts where it ends (`ItemOffset`). |
| Text.JoinEndsAtLastItem | src/main/java/com/heledron/hologram/model3d/setupMountainray.kt:82 | The joined text ends where its last item does, so the items and separators above make up all of it. |
| FrameStore.Extension | src/main/java/com/heledron/hologram/disc_player/BadApplePlayer.kt:59 | `File.extension` is the suffix after the last dot. It contains no dot, and it is empty when the name has no dot. |
| FrameStore.ExtensionAfterDot | src/main/java/com/heledron/hologram/disc_player/BadApplePlayer.kt:59 | A name made of any stem, a dot and a dot-free suffix has exactly that suffix as its extension. |
| FrameStore.AcceptedFiles | src/main/java/com/heledron/hologram/disc_player/BadApplePlayer.kt:58-59 | Each accepted entry is kept as often as it occurs in the listing, rejected entries not at all, and the kept entries stay in listing order (a subsequence). A listing whose entries all pass comes back unchanged. |
| FrameStore.InsertByName | src/main/java/com/heledron/hologram/disc_player/BadApplePlayer.kt:60 | Insertion keeps the sequence sorted by name and adds exactly the one entry. |
| FrameStore.SortByName | src/main/java/com/heledron/hologram/disc_player/BadApplePlayer.kt:60 | The result is sorted by name and is a permutation of the input. |
| FrameStore.SortByNameStable | src/main/java/com/heledron/hologram/disc_player/BadApplePlayer.kt:60 | `sortedBy` is stable: for every name, the entries with that name appear in the result in the order they had in the input. |
| FrameStore.DecodedFrames | src/main/java/com/heledron/hologram/disc_player/BadApplePlayer.kt:62-70 | There is at most one frame per file, and every frame comes from some file. When every file decodes, frame i is file i's image. |
| FrameStore.DecodedFramesInOrder | src/main/java/com/heledron/hologram/disc_player/BadApplePlayer.kt:62-70 | The frames are exactly those of the files that decode, in file order: the frame of a decodable file i sits at the position counting the decodable files before it, and the number of frames is the number of decodable files. A file that fails is skipped. |
| FrameStore.Accepted | src/main/java/com/heledron/hologram/disc_player/BadApplePlayer.kt:58-59 | The filter of `listFiles`: a file whose lower-cased extension is a supported format. |
| FrameStore.FrameFiles | src/main/java/com/heledron/hologram/disc_player/BadApplePlayer.kt:57-60 | The files to load are sorted by name and hold each accepted entry of the listing as often as the listing has it, and nothing else. A failed listing gives no files. |
| FrameStore.LoadedFrames | src/main/java/com/heledron/hologram/disc_player/BadApplePlayer.kt:57-70 | A load yields at most one frame per file to load, and nothing when the listing fails. |
| FrameStore.LoadedFramesFromAcceptedFiles | src/main/java/com/heledron/hologram/disc_player/BadApplePlayer.kt:57-70 | A load yields no more frames than accepted files. Every loaded frame has the grid's shape. A failed listing loads nothing. |
| FrameStore.SortedUnique | src/main/java/com/heledron/hologram/disc_player/BadApplePlayer.kt:60 | A sequence sorted by name and a strictly sorted one with the same elements are equal. |
| FrameStore.SortByNameRecovers | src/main/java/com/heledron/hologram/disc_player/BadApplePlayer.kt:60 | Sorting any arrangement of a strictly name-ordered sequence returns that sequence. |
| Frames.RenderRow | src/main/java/com/heledron/hologram/disc_player/BadApplePlayer.kt:212-278 | The inner loop adds exactly the entries of one row's visible cells. |
| Frames.RenderCell | src/main/java/com/heledron/hologram/disc_player/BadApplePlayer.kt:213-276 | One cell of the inner loop. A transparent or black cell adds nothing. A visible cell adds its forward entry with its colour, plus the backward twin exactly when double-sided. Nothing else changes. |
| Frames.RenderFrame | src/main/java/com/heledron/hologram/disc_player/BadApplePlayer.kt:209-279 | The group is rebuilt from empty. Its keys are exactly the forward keys of visible cells, plus the backward keys exactly when double-sided, and each entry has its cell's colour. Its size is the number of visible cells times one or two. |
| Frames.EntriesCount | src/main/java/com/heledron/hologram/disc_player/BadApplePlayer.kt:219-260 | Each visible cell contributes one entry, or two when double-sided. |
| Frames.RendersFrameUnique | src/main/java/com/heledron/hologram/disc_player/BadApplePlayer.kt:209 | The rendered group is determined by the frame and the setting, so no key from an earlier frame survives. |
| Frames.HiddenCellHasNoEntry | src/main/java/com/heledron/hologram/disc_player/BadApplePlayer.kt:219-221 | A transparent or black cell has no entry on either side. |
| Frames.Hidden | src/main/java/com/heledron/hologram/disc_player/BadApplePlayer.kt:219 | The skip test of the renderer: a cell is skipped when fully transparent or pure black. Its effect is stated by `Frames.HiddenCellHasNoEntry`. |
| Frames.TwoCellExample | src/main/java/com/heledron/hologram/disc_player/BadApplePlayer.kt:219-249 | A 2×1 frame of opaque red and transparent renders, single-sided, to the one forward entry of the red cell. |
| Schedule.Duration | src/main/java/com/heledron/hologram/disc_player/BadApplePlayer.kt:161-165 | The duration is the largest whole number of ticks d with d·frameRate ≤ 20·totalFrames. |
| Schedule.FrameIndex | src/main/java/com/heledron/hologram/disc_player/BadApplePlayer.kt:161-180 | A shown index is always a valid frame. Looping never ends. A non-looping session ends exactly when the elapsed ticks reach the duration. |
| Schedule.Min | src/main/java/com/heledron/hologram/disc_player/BadApplePlayer.kt:179 | `coerceAtMost`: the result is at most both arguments and is one of them. |
| Schedule.NonLoopIndexUnclamped | src/main/java/com/heledron/hologram/disc_player/BadApplePlayer.kt:179 | Before the end, `elapsed·frameRate/20` is already a valid frame, so `coerceAtMost` never changes it. |
| Schedule.EndsByLastFrame | src/main/java/com/heledron/hologram/disc_player/BadApplePlayer.kt:168-179 | Once the frame index passes the last frame, the session has ended. |
| Schedule.EndExactWhenDivisible | src/main/java/com/heledron/hologram/disc_player/BadApplePlayer.kt:168-179 | When 20·totalFrames is a multiple of the frame rate, ending coincides with the index passing the last frame. |
| Schedule.EndsEarlyWhenNotDivisible | src/main/java/com/heledron/hologram/disc_player/BadApplePlayer.kt:165-168 | Otherwise the session ends at a tick whose index still names a frame. |
| Schedule.SecondFrameNeverShown | src/main/java/com/heledron/hologram/disc_player/BadApplePlayer.kt:165-179 | Two frames at 30 frames per second: frame 0 on the first tick, then the end, so frame 1 is never shown. |
| Schedule.NinetyFrameExamples | src/main/java/com/heledron/hologram/disc_player/BadApplePlayer.kt:161-180 | 90 frames at 30 frames per second: frame 0 at tick 0, frame 88 at tick 59, the end at tick 60. Looping, frame 60 at tick 40 and frame 0 at tick 60. |
| Player.SessionCue | src/main/java/com/heledron/hologram/disc_player/BadApplePlayer.kt:146-180 | A session whose jukebox is gone, or which is not a custom-disc session, ends. Otherwise its fate is the frame arithmetic of its elapsed ticks. |
| Player.IsDiscItem | src/main/java/com/heledron/hologram/disc_player/BadApplePlayer.kt:120-127 | A missing item is rejected. With custom discs it is `Disc.isDisc`, otherwise the material check. |
| Player.IsDiscMaterial | src/main/java/com/heledron/hologram/disc_player/BadApplePlayer.kt:129-136 | The answer is "is `MUSIC_DISC_BLOCKS`", whatever `useCustomDisc` is. |
| Player.DiscItemHasDiscMaterial | src/main/java/com/heledron/hologram/disc_player/BadApplePlayer.kt:120-136 | An item the item check accepts has a material the material check accepts. |
| Player.VideoPlayer.constructor | src/main/java/com/heledron/hologram/disc_player/BadApplePlayer.kt:32-40 | The player starts with no frames, no sessions and no submissions. |
| Player.VideoPlayer.HasFrames | src/main/java/com/heledron/hologram/disc_player/BadApplePlayer.kt:116-118 | True exactly when frames are loaded. |
| Player.VideoPlayer.LoadVideo | src/main/java/com/heledron/hologram/disc_player/BadApplePlayer.kt:50-73 | A missing directory, or a path that is not a directory, keeps the frames already loaded. Otherwise the frames become the decodable accepted files in name order, with failures skipped. |
| Player.VideoPlayer.StartJukeboxVideo | src/main/java/com/heledron/hologram/disc_player/BadApplePlayer.kt:75-103 | An already playing position changes nothing, so its start tick is kept. Otherwise frames are loaded when none are, and exactly one session starting now is added; the other sessions are untouched. |
| Player.VideoPlayer.StopJukeboxVideo | src/main/java/com/heledron/hologram/disc_player/BadApplePlayer.kt:105-114 | The session at the position is removed if there is one. No other session changes. |
| Player.VideoPlayer.RenderFrameForJukebox | src/main/java/com/heledron/hologram/disc_player/BadApplePlayer.kt:192-282 | An index past the animation does nothing. Otherwise the session's group becomes the render of that frame and is submitted under its identity; its start tick and disc flag are kept. |
| Player.VideoPlayer.AdvanceSession | src/main/java/com/heledron/hologram/disc_player/BadApplePlayer.kt:146-182 | One session's step of the pass: it reports the end exactly when the cue is `End` and then changes nothing. Otherwise it renders and submits the frame of the cue. |
| Player.VideoPlayer.VisitOne | src/main/java/com/heledron/hologram/disc_player/BadApplePlayer.kt:146-183 | Visiting one more session extends the visited set and the removal list consistently. |
| Player.VideoPlayer.VisitSessions | src/main/java/com/heledron/hologram/disc_player/BadApplePlayer.kt:144-183 | After the pass, the removal list is exactly the sessions whose cue is `End`. Every other session has been rendered and submitted once; nothing else changed. |
| Player.VideoPlayer.RemoveSessions | src/main/java/com/heledron/hologram/disc_player/BadApplePlayer.kt:186-189 | Exactly the listed sessions are removed. |
| Player.VideoPlayer.Update | src/main/java/com/heledron/hologram/disc_player/BadApplePlayer.kt:138-190 | With no frames loaded nothing changes. Otherwise exactly the sessions that show a frame remain, each rendered for its frame and submitted. Ended sessions are gone and submit nothing. |
| Player.VideoPlayer.ShownFrame | src/main/java/com/heledron/hologram/disc_player/BadApplePlayer.kt:161-182 | A surviving session shows frame `(elapsed·frameRate/20) mod totalFrames` when looping, and otherwise the unclamped `elapsed·frameRate/20`. |
| Player.VideoPlayer.LoopingSessionsSurvive | src/main/java/com/heledron/hologram/disc_player/BadApplePlayer.kt:168-182 | A looping session survives every tick while its jukebox stands and it is a custom-disc session, and it keeps its start tick. |
| Player.VideoPlayer.EndedSessionsSubmitNothing | src/main/java/com/heledron/hologram/disc_player/BadApplePlayer.kt:186-189 | A session that ends on a tick makes no submission on it. |
| Player.StartTwice | src/main/java/com/heledron/hologram/disc_player/BadApplePlayer.kt:80-97 | Two starts at one position leave one session, with the first start tick. Only the sessions and the loaded frames change, and the frames load at most once. |
| Player.StopTwice | src/main/java/com/heledron/hologram/disc_player/BadApplePlayer.kt:105-114 | Stopping twice equals stopping once: the session at that position is removed and nothing else changes. |
| Extractor.ExtractFrames | src/main/resources/disc-player/extract_video_frames.py:21-103 | A capture that does not open gives `False` having written nothing. A capture frame rate of 0, or a target rate of 0, raises `ZeroDivisionError`. Otherwise the files written are the selection for interval `original_fps / frame_rate`, the k-th named with counter k. |
| Extractor.ReadLoop | src/main/resources/disc-player/extract_video_frames.py:59-94 | The read loop writes exactly the selected source frames, in order, with counter names. |
| Extractor.WritesNamed | src/main/resources/disc-player/extract_video_frames.py:74-83 | The files written for a sequence of kept frames are one per kept frame. They record exactly those frames as their sources, in order, and the k-th is named with counter k. |
| Extractor.Picks | src/main/resources/disc-player/extract_video_frames.py:65-94 | The kept source indices lie in the frames read and are strictly increasing. |
| Extractor.PicksTake | src/main/resources/disc-player/extract_video_frames.py:72-92 | A frame that reaches the target is kept. The loop stops there when the limit is hit, and otherwise continues with target = frame + interval. |
| Extractor.FirstFrameExtracted | src/main/resources/disc-player/extract_video_frames.py:61-72 | When any frame is read, the first kept frame is frame 0. |
| Extractor.PicksFirst | src/main/resources/disc-player/extract_video_frames.py:72 | The first kept frame is the first one that reaches the target. |
| Extractor.PicksSpaced | src/main/resources/disc-player/extract_video_frames.py:72-84 | Each later kept frame is the first at least `frame_interval` past the one kept before it. |
| Extractor.PicksComplete | src/main/resources/disc-player/extract_video_frames.py:65-94 | Unless the limit stopped the loop, no frame after the last kept one is due. |
| Extractor.PicksNoneReached | src/main/resources/disc-player/extract_video_frames.py:65-94 | When nothing is kept, no frame read reached the target. |
| Extractor.PicksLimit | src/main/resources/disc-player/extract_video_frames.py:91-92 | A positive `max_frames` bounds the count written. A negative one stops the loop after the first frame kept. |
| Extractor.LimitHit | src/main/resources/disc-player/extract_video_frames.py:91 | The stop test `max_frames and extracted_count >= max_frames`. Its cases are stated by `Extractor.LimitHitCases`. |
| Extractor.LimitHitCases | src/main/resources/disc-player/extract_video_frames.py:91 | With Python truthiness: `None` and 0 never stop the loop, a positive limit stops it exactly when the count reaches it, and a negative limit always stops it. |
| Extractor.LimitRespected | src/main/resources/disc-player/extract_video_frames.py:91-92 | A whole run writes at most `max_frames` files for a positive limit. |
| Extractor.EveryFrameWhenDense | src/main/resources/disc-player/extract_video_frames.py:72-94 | With `frame_interval` ≤ 1 and no limit (`None` or 0), every frame read is kept, in order. |
| Extractor.FrameNamesDistinct | src/main/resources/disc-player/extract_video_frames.py:74 | Distinct counters give distinct file names. |
| Extractor.FrameNamesOrdered | src/main/resources/disc-player/extract_video_frames.py:74 | Below 10^6, name order is counter order. |
| Extractor.FrameNameExtension | src/main/resources/disc-player/extract_video_frames.py:74 | Every output name has the extension `png`. |
| Extractor.FrameName | src/main/resources/disc-player/extract_video_frames.py:74 | The name `frame_{n:06d}.png`. Its properties are stated by `Extractor.FrameNameShape` and the two rows above. |
| Extractor.FrameNameShape | src/main/resources/disc-player/extract_video_frames.py:74 | A name is `frame_`, at least six digits whose value is the counter, and `.png`. |
| Extractor.DefaultFormatsLoadExtractedFiles | src/main/java/com/heledron/hologram/disc_player/BadAppleConfig.kt:49 | With the default formats (`png`, `jpg`, `jpeg`), the player loads every extractor output, listed in any order, in the order it was written. |
| Extractor.ExtractedFilesLoadInOrder | src/main/java/com/heledron/hologram/disc_player/BadApplePlayer.kt:58-60 | Take at most 10^6 extractor outputs, listed in any order, with `png` supported. The player's filter keeps them all, and its sort returns them in the order they were written. |
| Mountainray.IndexOf | src/main/java/com/heledron/hologram/model3d/setupMountainray.kt:167-173 | Every shader occurs in the cycle list, at the returned index. |
| Mountainray.NextShader | src/main/java/com/heledron/hologram/model3d/setupMountainray.kt:173 | The next shader is one place on in the cycle and is never the current one. |
| Mountainray.CycleOrder | src/main/java/com/heledron/hologram/model3d/setupMountainray.kt:167-173 | The cycle is Random → Colored → Shaded → Random. |
| Mountainray.ThreeStepsReturn | src/main/java/com/heledron/hologram/model3d/setupMountainray.kt:167-173 | Three steps return to the starting shader. |
| Mountainray.EveryShaderReachable | src/main/java/com/heledron/hologram/model3d/setupMountainray.kt:167-173 | Any shader is reached from any other within two steps. |
| Mountainray.ShaderName | src/main/java/com/heledron/hologram/model3d/setupMountainray.kt:175-179 | The name mapping is total and never empty. |
| Mountainray.ShaderNamesDistinct | src/main/java/com/heledron/hologram/model3d/setupMountainray.kt:175-179 | The three names are distinct. |
| Mountainray.ShaderSelector.constructor | src/main/java/com/heledron/hologram/model3d/setupMountainray.kt:31 | The active shader starts as Shaded. |
| Mountainray.ShaderSelector.OnGestureUse | src/main/java/com/heledron/hologram/model3d/setupMountainray.kt:166-181 | The active shader moves to the next one, and the action bar shows its name. |
| Mountainray.UseThreeTimes | src/main/java/com/heledron/hologram/model3d/setupMountainray.kt:166-181 | Three gestures show the next two names and then the original one, and end on the original shader. |
| Mountainray.Summon | src/main/java/com/heledron/hologram/model3d/setupMountainray.kt:74-100 | Rejections come in order: a non-player sender, then no argument (usage), then an unknown model. A marker is spawned, tagged with the name, exactly for a player naming a listed model. |
| Mountainray.Remove | src/main/java/com/heledron/hologram/model3d/setupMountainray.kt:113-150 | No argument gives only the three usage lines. `all` removes every model before any name check. A listed model removes that model. Anything else is reported as unknown. |
| Mountainray.AllNeverUnknown | src/main/java/com/heledron/hologram/model3d/setupMountainray.kt:123-141 | `all` is never reported as an unknown model. |
| Mountainray.FilterByPrefix | src/main/java/com/heledron/hologram/model3d/setupMountainray.kt:104 | Each item that starts with the prefix, ignoring case, is kept as often as it occurs, the others not at all, and the kept items stay in their original order (a subsequence). |
| Mountainray.EmptyPrefixKeepsAll | src/main/java/com/heledron/hologram/model3d/setupMountainray.kt:104 | An empty prefix keeps every item. |
| Mountainray.SummonCompletions | src/main/java/com/heledron/hologram/model3d/setupMountainray.kt:102-108 | With exactly one argument: the models starting with it, ignoring case, in list order. Otherwise nothing. |
| Mountainray.RemoveCompletions | src/main/java/com/heledron/hologram/model3d/setupMountainray.kt:152-160 | The same filter over `all` followed by the models, and nothing unless there is exactly one argument. |
| Mountainray.AllOfferedFirst | src/main/java/com/heledron/hologram/model3d/setupMountainray.kt:154-156 | `all` comes first whenever it matches what was typed. |
| Mountainray.EmptyArgumentOffersEverything | src/main/java/com/heledron/hologram/model3d/setupMountainray.kt:102-160 | An empty argument offers every model, and for `/3dremove` `all` first. |

## Left out

- Schedule.Duration: the source computes the duration in single-precision floating point and truncates it. The model uses the exact `floor(totalFrames·20/frameRate)`, so float rounding is not captured.
- Player.VideoPlayer.constructor: requires a positive frame rate. The source does not check it. A frame rate of 0 or less would make its duration infinite or negative.
- Player.VideoPlayer.Update: requires that no session started after the current tick. The tick only moves forward. An earlier tick would make the source index the frame list with a negative index.
- Integer widths are not modelled: `Long` elapsed ticks, the `toInt()` of the frame index, and Python's unbounded counters are all unbounded integers.
- Matrix and offset math (the forward and backward transforms), the text-display settings and the anchor position: a display entry is recorded by its key and colour only.
- Image decoding and resizing (`ImageIO.read`, `resize`, `sampleColor`, `cv2.resize`, `cv2.imwrite`). Each directory entry carries its decoded frame, and sampling at `(x/w, y/h)` is reading cell `(x, y)`.
- The render layer (`RenderGroup`, `renderText`, `interpolateTransform`) and the identity string of `submit`: a submission is recorded per position.
- The fresh empty group assigned to a record that `stopJukeboxVideo` or `update` removes: the record is dropped with the session, so nothing observes it.
- World and block queries, sounds, `println`, and the Python progress output.
- `setupDiscPlayer.kt`: event wiring and delayed callbacks whose only effect on the core is calling `startJukeboxVideo` and `stopJukeboxVideo`, which are modelled directly.
- `BadAppleConfig.kt` loading and saving: its values are parameters.
- Extractor.ExtractFrames: the capture is abstracted as the number of frames `read` delivers before it reports the end, and the frame interval as an exact real. Directory creation, write failures and the `duration` value itself (only its division by zero) are not modelled.
- Mountainray.Remove: which entities the host removes, and how many, are not modelled. The count in the reply is a parameter.
- The rest of `setupMountainray.kt`: meshes, textures, shaders and per-tick model rendering.
- Case folding covers ASCII letters only, for `lowercase()` and `startsWith(…, ignoreCase = true)`.
- The plugin namespace of the disc key is a stand-in constant. How the plugin derives it is not part of this model.
- Disc.IsDisc: the persistent data container holds only boolean entries here. In the source, `get(discKey, PersistentDataType.BOOLEAN)` throws `IllegalArgumentException` when the disc key holds a value of another type. With regular discs not accepted, `isDisc` therefore throws on such an item, where the model gives an answer.

## Notes

These are behaviours the model keeps and proves, stated here because they are easy to miss in the source.

- A non-looping session ends when the elapsed ticks reach the truncated duration. When `20 * totalFrames` is not a multiple of the frame rate, that happens while the frame index still names a frame (`Schedule.EndsEarlyWhenNotDivisible`); otherwise the two coincide (`Schedule.EndExactWhenDivisible`).
- An ended or removed session submits nothing.
- A missing frames directory keeps the frames already loaded.
- Sessions are keyed by position without the world.

## Findings

| source | as written | input that shows it | evidently intended | confidence | as-written member | corrected member |
|---|---|---|---|---|---|---|
| src/main/java/com/heledron/hologram/disc_player/Disc.kt:19-23 | The name and lore literals start with U+0E22 U+0E07 ("ยง"). These are the two UTF-8 bytes of the section sign U+00A7 read as TIS-620. | `createDisc()` on a stack with meta: the name is "ยง6Video Music Disc", starting with two stray letters and carrying no gold formatting code. | U+00A7 `6Video Music Disc` and U+00A7 `7…` lore lines, as `BadAppleConfig.kt:59` spells the default disc name | high (the file's bytes); not executed | Disc.CreateDiscAsWritten, Disc.AsWrittenTextIsUnformatted | Disc.CreateDisc, Disc.CreatedDiscIsFormatted |
