/**
  The frame extractor (`extract_frames`): which frames of a video it keeps and
  the names it writes them under. The capture is abstracted to whether it
  opens, its reported frame rate, and the number of frames `read` delivers
  before it reports the end; the frame interval is an exact real. Writing,
  resizing and progress output are host calls and are not modelled; each kept
  frame is recorded by its file name and its source frame index.
*/
module Extractor {
  import opened Wrappers
  import opened Text
  import opened FrameStore

  /** A written file: its name and the index of the source frame in it. */
  datatype Written = Written(name: string, source: nat)

  /** The outcome of a call: `False` returned because the capture did not
      open, a `ZeroDivisionError` (a capture frame rate of 0, or a target
      frame rate of 0), or `True` returned with the files written, in order. */
  datatype Extraction = CouldNotOpen | ZeroDivision | Extracted(files: seq<Written>)

  /** The width of the zero-padded counter in an output name. */
  const CounterWidth: nat := 6

  /** `f"frame_{n:06d}.png"`. */
  function FrameName(n: nat): string {
    "frame_" + ZeroPadded(n, CounterWidth) + ".png"
  }

  /** An output name is the fixed stem, at least six digits whose value is the
      counter, and the extension. */
  lemma FrameNameShape(n: nat)
    ensures |FrameName(n)| >= 16
    ensures FrameName(n)[..6] == "frame_" && FrameName(n)[|FrameName(n)| - 4..] == ".png"
    ensures ValueOf(FrameName(n)[6..|FrameName(n)| - 4]) == n
  {
    var padded := ZeroPadded(n, CounterWidth);
    ZeroPaddedValue(n, CounterWidth);
    var name := FrameName(n);
    assert name[6..|name| - 4] == padded;
  }

  /** `max_frames and count >= max_frames`. */
  predicate LimitHit(count: nat, maxFrames: Option<int>) {
    maxFrames.Some? && maxFrames.value != 0 && count >= maxFrames.value
  }

  /** Under Python's truthiness, `None` and 0 mean no limit, a positive limit
      stops the run at that count, and a negative one, being truthy and below
      every count, stops it at once. */
  lemma LimitHitCases(count: nat, maxFrames: Option<int>)
    ensures maxFrames == None || maxFrames == Some(0) ==> !LimitHit(count, maxFrames)
    ensures maxFrames.Some? && maxFrames.value > 0 ==> (LimitHit(count, maxFrames) <==> count >= maxFrames.value)
    ensures maxFrames.Some? && maxFrames.value < 0 ==> LimitHit(count, maxFrames)
  {
  }

  /** `frame_count >= target_frame`. */
  predicate Reached(frameCount: nat, target: real) {
    frameCount as real >= target
  }

  /** Frame `j` is due after an extraction at frame `prev`. */
  predicate Due(j: nat, prev: nat, interval: real) {
    Reached(j, prev as real + interval)
  }

  /** The source indices the loop keeps from `frameCount` on, with
      `extracted` frames already written and `target` the current target. */
  function Picks(frameCount: nat, available: nat, target: real, extracted: nat, interval: real,
                 maxFrames: Option<int>): (r: seq<nat>)
    ensures forall i :: 0 <= i < |r| ==> frameCount <= r[i] < available
    ensures forall i, j :: 0 <= i < j < |r| ==> r[i] < r[j]
    decreases available - frameCount
  {
    if frameCount >= available then []
    else if Reached(frameCount, target) then
      if LimitHit(extracted + 1, maxFrames) then [frameCount]
      else [frameCount] + Picks(frameCount + 1, available, frameCount as real + interval, extracted + 1, interval, maxFrames)
    else Picks(frameCount + 1, available, target, extracted, interval, maxFrames)
  }

  /** The source indices a whole run keeps. */
  function Selection(available: nat, interval: real, maxFrames: Option<int>): seq<nat> {
    Picks(0, available, 0.0, 0, interval, maxFrames)
  }

  function Sources(files: seq<Written>): (r: seq<nat>)
    ensures |r| == |files|
    ensures forall k :: 0 <= k < |files| ==> r[k] == files[k].source
  {
    if files == [] then [] else Sources(files[..|files| - 1]) + [files[|files| - 1].source]
  }

  /** The `k`-th file written is named with counter `k`. */
  predicate NamedInOrder(files: seq<Written>) {
    forall k :: 0 <= k < |files| ==> files[k].name == FrameName(k)
  }

  lemma NamedAppend(files: seq<Written>, source: nat)
    requires NamedInOrder(files)
    ensures NamedInOrder(files + [Written(FrameName(|files|), source)])
  {
  }

  lemma SourcesAppend(files: seq<Written>, w: Written)
    ensures Sources(files + [w]) == Sources(files) + [w.source]
  {
    assert (files + [w])[..|files|] == files;
  }

  /** The files written for the source indices `s`, in order, the `k`-th
      named with counter `k`. */
  function Writes(s: seq<nat>): seq<Written> {
    if s == [] then [] else Writes(s[..|s| - 1]) + [Written(FrameName(|s| - 1), s[|s| - 1])]
  }

  lemma WritesAppend(s: seq<nat>, x: nat)
    ensures Writes(s + [x]) == Writes(s) + [Written(FrameName(|s|), x)]
  {
    assert (s + [x])[..|s|] == s;
  }

  /** The files written for `s` record exactly `s` as their sources and are
      named in order. */
  lemma {:induction false} WritesNamed(s: seq<nat>)
    ensures |Writes(s)| == |s|
    ensures Sources(Writes(s)) == s
    ensures NamedInOrder(Writes(s))
  {
    if s != [] {
      var init := s[..|s| - 1];
      WritesNamed(init);
      assert s == init + [s[|s| - 1]];
      WritesAppend(init, s[|s| - 1]);
      NamedAppend(Writes(init), s[|s| - 1]);
      SourcesAppend(Writes(init), Written(FrameName(|init|), s[|s| - 1]));
    }
  }

  /** `extract_frames`. */
  method ExtractFrames(isOpened: bool, originalFps: real, frameRate: int, available: nat, maxFrames: Option<int>)
    returns (result: Extraction)
    ensures !isOpened ==> result == CouldNotOpen
    ensures isOpened && (originalFps == 0.0 || frameRate == 0) ==> result == ZeroDivision
    ensures isOpened && originalFps != 0.0 && frameRate != 0 ==>
              && result.Extracted?
              && Sources(result.files) == Selection(available, originalFps / frameRate as real, maxFrames)
              && NamedInOrder(result.files)
  {
    if !isOpened {
      return CouldNotOpen;
    }
    if originalFps == 0.0 || frameRate == 0 {
      return ZeroDivision;
    }
    var frameInterval := originalFps / frameRate as real;
    var files := ReadLoop(available, frameInterval, maxFrames);
    return Extracted(files);
  }

  /** The read loop of `extract_frames`, over a capture that delivers
      `available` frames. */
  method ReadLoop(available: nat, frameInterval: real, maxFrames: Option<int>) returns (files: seq<Written>)
    ensures Sources(files) == Selection(available, frameInterval, maxFrames)
    ensures NamedInOrder(files)
  {
    ghost var selection := Selection(available, frameInterval, maxFrames);
    var frameCount: nat := 0;
    var extractedCount: nat := 0;
    var targetFrame: real := 0.0;
    files := [];
    ghost var sources: seq<nat> := [];
    while frameCount < available
      invariant |sources| == extractedCount
      invariant files == Writes(sources)
      invariant sources + Picks(frameCount, available, targetFrame, extractedCount, frameInterval, maxFrames) == selection
      decreases available - frameCount
    {
      if frameCount as real >= targetFrame {
        PicksTake(frameCount, available, targetFrame, extractedCount, frameInterval, maxFrames);
        ghost var rest := Picks(frameCount + 1, available, frameCount as real + frameInterval, extractedCount + 1, frameInterval, maxFrames);
        ghost var previous := sources;
        WritesAppend(sources, frameCount);
        files := files + [Written(FrameName(extractedCount), frameCount)];
        sources := sources + [frameCount];
        extractedCount := extractedCount + 1;
        targetFrame := frameCount as real + frameInterval;
        if maxFrames.Some? && maxFrames.value != 0 && extractedCount >= maxFrames.value {
          assert sources == selection;
          WritesNamed(sources);
          return;
        }
        AppendAssociative(previous, frameCount, rest);
      } else {
        assert Picks(frameCount, available, targetFrame, extractedCount, frameInterval, maxFrames)
            == Picks(frameCount + 1, available, targetFrame, extractedCount, frameInterval, maxFrames);
      }
      frameCount := frameCount + 1;
    }
    assert sources == selection;
    WritesNamed(sources);
  }

  lemma AppendAssociative(a: seq<nat>, x: nat, b: seq<nat>)
    ensures (a + [x]) + b == a + ([x] + b)
  {
  }

  /** Reading a frame that reaches the target keeps it; the loop stops there
      when the limit is hit and otherwise goes on from the next frame with
      the target moved on by the interval. */
  lemma PicksTake(frameCount: nat, available: nat, target: real, extracted: nat, interval: real,
                  maxFrames: Option<int>)
    requires frameCount < available && Reached(frameCount, target)
    ensures Picks(frameCount, available, target, extracted, interval, maxFrames)
            == [frameCount] + if LimitHit(extracted + 1, maxFrames) then []
                              else Picks(frameCount + 1, available, frameCount as real + interval, extracted + 1, interval, maxFrames)
  {
  }

  /** The first frame read is always kept: the target starts at 0. */
  lemma FirstFrameExtracted(available: nat, interval: real, maxFrames: Option<int>)
    requires available > 0
    ensures Selection(available, interval, maxFrames) != []
    ensures Selection(available, interval, maxFrames)[0] == 0
  {
  }

  /** The first kept frame is the first from `frameCount` on that reaches the
      target. */
  lemma {:induction false} PicksFirst(frameCount: nat, available: nat, target: real, extracted: nat,
                                      interval: real, maxFrames: Option<int>)
    ensures var r := Picks(frameCount, available, target, extracted, interval, maxFrames);
            r != [] ==> Reached(r[0], target) && forall j :: frameCount <= j < r[0] ==> !Reached(j, target)
    decreases available - frameCount
  {
    if frameCount < available && !Reached(frameCount, target) {
      PicksFirst(frameCount + 1, available, target, extracted, interval, maxFrames);
    }
  }

  /** Each element after the first is the first frame due after the one
      before it. */
  predicate Spaced(r: seq<nat>, interval: real) {
    forall i :: 0 <= i < |r| - 1 ==>
      Due(r[i + 1], r[i], interval) && forall j :: r[i] < j < r[i + 1] ==> !Due(j, r[i], interval)
  }

  lemma SpacedCons(x: nat, rest: seq<nat>, interval: real)
    requires Spaced(rest, interval)
    requires rest != [] ==> Due(rest[0], x, interval) && forall j :: x < j < rest[0] ==> !Due(j, x, interval)
    ensures Spaced([x] + rest, interval)
  {
    var r := [x] + rest;
    forall i | 0 <= i < |r| - 1
      ensures Due(r[i + 1], r[i], interval) && forall j :: r[i] < j < r[i + 1] ==> !Due(j, r[i], interval)
    {
      if i > 0 {
        assert r[i] == rest[i - 1] && r[i + 1] == rest[i];
      }
    }
  }

  /** Each kept frame after the first is the first one that is due after the
      one kept before it. */
  lemma {:induction false} PicksSpaced(frameCount: nat, available: nat, target: real, extracted: nat,
                                       interval: real, maxFrames: Option<int>)
    ensures Spaced(Picks(frameCount, available, target, extracted, interval, maxFrames), interval)
    decreases available - frameCount
  {
    var r := Picks(frameCount, available, target, extracted, interval, maxFrames);
    if frameCount >= available {
      assert r == [];
    } else if Reached(frameCount, target) {
      if LimitHit(extracted + 1, maxFrames) {
        assert r == [frameCount];
      } else {
        var next := frameCount as real + interval;
        var rest := Picks(frameCount + 1, available, next, extracted + 1, interval, maxFrames);
        assert r == [frameCount] + rest;
        PicksFirst(frameCount + 1, available, next, extracted + 1, interval, maxFrames);
        PicksSpaced(frameCount + 1, available, next, extracted + 1, interval, maxFrames);
        SpacedCons(frameCount, rest, interval);
      }
    } else {
      assert r == Picks(frameCount + 1, available, target, extracted, interval, maxFrames);
      PicksSpaced(frameCount + 1, available, target, extracted, interval, maxFrames);
    }
  }

  /** When nothing is kept from `frameCount` on, no frame read from there on
      reaches the target. */
  lemma {:induction false} PicksNoneReached(frameCount: nat, available: nat, target: real, extracted: nat,
                                            interval: real, maxFrames: Option<int>)
    ensures Picks(frameCount, available, target, extracted, interval, maxFrames) == [] ==>
              forall j :: frameCount <= j < available ==> !Reached(j, target)
    decreases available - frameCount
  {
    if frameCount < available && !Reached(frameCount, target) {
      assert Picks(frameCount, available, target, extracted, interval, maxFrames)
          == Picks(frameCount + 1, available, target, extracted, interval, maxFrames);
      PicksNoneReached(frameCount + 1, available, target, extracted, interval, maxFrames);
    }
  }

  /** No frame read after `last` is due after it. */
  predicate NoneDueAfter(last: nat, available: nat, interval: real) {
    forall j :: last < j < available ==> !Due(j, last, interval)
  }

  /** Unless the limit stopped the loop, no frame after the last kept one is
      due. */
  lemma {:induction false} PicksComplete(frameCount: nat, available: nat, target: real, extracted: nat,
                                         interval: real, maxFrames: Option<int>)
    ensures var r := Picks(frameCount, available, target, extracted, interval, maxFrames);
            r != [] && !LimitHit(extracted + |r|, maxFrames) ==> NoneDueAfter(r[|r| - 1], available, interval)
    decreases available - frameCount
  {
    var r := Picks(frameCount, available, target, extracted, interval, maxFrames);
    if frameCount >= available {
      assert r == [];
    } else if Reached(frameCount, target) {
      if LimitHit(extracted + 1, maxFrames) {
        assert r == [frameCount];
        assert LimitHit(extracted + |r|, maxFrames);
      } else {
        var next := frameCount as real + interval;
        var rest := Picks(frameCount + 1, available, next, extracted + 1, interval, maxFrames);
        assert r == [frameCount] + rest;
        if rest == [] {
          PicksNoneReached(frameCount + 1, available, next, extracted + 1, interval, maxFrames);
          assert r[|r| - 1] == frameCount;
          assert NoneDueAfter(frameCount, available, interval);
        } else {
          PicksComplete(frameCount + 1, available, next, extracted + 1, interval, maxFrames);
          assert r[|r| - 1] == rest[|rest| - 1];
          assert extracted + |r| == extracted + 1 + |rest|;
        }
      }
    } else {
      var rest := Picks(frameCount + 1, available, target, extracted, interval, maxFrames);
      assert r == rest;
      PicksComplete(frameCount + 1, available, target, extracted, interval, maxFrames);
    }
  }

  /** A positive limit bounds the number written; a negative one stops the
      loop after the first frame kept. */
  lemma {:induction false} PicksLimit(frameCount: nat, available: nat, target: real, extracted: nat,
                                      interval: real, maxFrames: Option<int>)
    ensures var r := Picks(frameCount, available, target, extracted, interval, maxFrames);
            && (maxFrames.Some? && extracted < maxFrames.value ==> extracted + |r| <= maxFrames.value)
            && (maxFrames.Some? && maxFrames.value < 0 ==> |r| <= 1)
    decreases available - frameCount
  {
    if frameCount < available {
      if Reached(frameCount, target) {
        if !LimitHit(extracted + 1, maxFrames) {
          PicksLimit(frameCount + 1, available, frameCount as real + interval, extracted + 1, interval, maxFrames);
        }
      } else {
        PicksLimit(frameCount + 1, available, target, extracted, interval, maxFrames);
      }
    }
  }

  /** The whole-run bound: at most `max_frames` files for a positive limit. */
  lemma LimitRespected(available: nat, interval: real, m: int)
    requires m > 0
    ensures |Selection(available, interval, Some(m))| <= m
  {
    PicksLimit(0, available, 0.0, 0, interval, Some(m));
  }

  /** `[lo, hi)` as a sequence. */
  function Range(lo: nat, hi: nat): (r: seq<nat>)
    requires lo <= hi
    ensures |r| == hi - lo
    ensures forall i :: 0 <= i < |r| ==> r[i] == lo + i
    decreases hi - lo
  {
    if lo == hi then [] else [lo] + Range(lo + 1, hi)
  }

  /** Without a limit and with an interval of at most one frame, every frame
      from `frameCount` on is kept. */
  lemma {:induction false} PicksDense(frameCount: nat, available: nat, target: real, extracted: nat,
                                      interval: real, maxFrames: Option<int>)
    requires frameCount <= available && Reached(frameCount, target) && interval <= 1.0
    requires maxFrames.None? || maxFrames.value == 0
    ensures Picks(frameCount, available, target, extracted, interval, maxFrames) == Range(frameCount, available)
    decreases available - frameCount
  {
    if frameCount < available {
      PicksDense(frameCount + 1, available, frameCount as real + interval, extracted + 1, interval, maxFrames);
    }
  }

  /** A capture at most as fast as the target rate, with no limit, is copied
      frame for frame. */
  lemma EveryFrameWhenDense(available: nat, interval: real, maxFrames: Option<int>)
    requires interval <= 1.0 && (maxFrames.None? || maxFrames.value == 0)
    ensures Selection(available, interval, maxFrames) == Range(0, available)
  {
    PicksDense(0, available, 0.0, 0, interval, maxFrames);
  }

  /** Output names determine their counter, so no two files share a name. */
  lemma FrameNamesDistinct(n: nat, m: nat)
    requires FrameName(n) == FrameName(m)
    ensures n == m
  {
    var pn, pm := ZeroPadded(n, CounterWidth), ZeroPadded(m, CounterWidth);
    assert pn == FrameName(n)[6..|FrameName(n)| - 4];
    assert pm == FrameName(m)[6..|FrameName(m)| - 4];
    ZeroPaddedValue(n, CounterWidth);
    ZeroPaddedValue(m, CounterWidth);
  }

  /** Below a million, name order is counter order. */
  lemma FrameNamesOrdered(n: nat, m: nat)
    requires n < m < Pow10(CounterWidth)
    ensures LexLess(FrameName(n), FrameName(m))
  {
    ZeroPaddedIsFixed(n, CounterWidth);
    ZeroPaddedIsFixed(m, CounterWidth);
    FixedDigitsOrdered(n, m, CounterWidth);
    var a, b := FixedDigits(n, CounterWidth), FixedDigits(m, CounterWidth);
    LexLessEqualLengthExtended(a, b, ".png", ".png");
    LexLessCommonPrefix("frame_", a + ".png", b + ".png");
    assert FrameName(n) == "frame_" + (a + ".png");
    assert FrameName(m) == "frame_" + (b + ".png");
  }

  /** Every output name carries the `png` extension. */
  lemma FrameNameExtension(n: nat)
    ensures Extension(FrameName(n)) == "png"
  {
    ExtensionAfterDot("frame_" + ZeroPadded(n, CounterWidth), "png");
    assert FrameName(n) == "frame_" + ZeroPadded(n, CounterWidth) + "." + "png";
  }

  /** An output file passes a filter that accepts `png`. */
  lemma OutputAccepted(e: FileEntry, k: nat, formats: seq<string>)
    requires e.name == FrameName(k) && e.isFile && "png" in formats
    ensures Accepted(e, formats)
  {
    FrameNameExtension(k);
    assert Lower("png") == "png";
  }

  /** Files named with counters `0, 1, …` below 10^6 are strictly ordered by
      name. */
  lemma OutputsStrictlySorted(ordered: seq<FileEntry>)
    requires |ordered| <= Pow10(CounterWidth)
    requires forall k :: 0 <= k < |ordered| ==> ordered[k].name == FrameName(k)
    ensures StrictlySortedByName(ordered)
  {
    forall i, j | 0 <= i < j < |ordered|
      ensures LexLess(ordered[i].name, ordered[j].name)
    {
      FrameNamesOrdered(i, j);
    }
  }

  /** A directory holding the files of a run, listed in any order, loads them
      in the order they were written: all of them pass a filter that accepts
      `png`, and sorting by name restores the counter order. */
  lemma ExtractedFilesLoadInOrder(listing: seq<FileEntry>, ordered: seq<FileEntry>, formats: seq<string>)
    requires |ordered| <= Pow10(CounterWidth)
    requires forall k :: 0 <= k < |ordered| ==> ordered[k].name == FrameName(k) && ordered[k].isFile
    requires "png" in formats
    requires multiset(listing) == multiset(ordered)
    ensures FrameFiles(Some(listing), formats) == ordered
  {
    forall i | 0 <= i < |listing|
      ensures Accepted(listing[i], formats)
    {
      assert listing[i] in multiset(ordered);
      var k :| 0 <= k < |ordered| && ordered[k] == listing[i];
      OutputAccepted(listing[i], k, formats);
    }
    assert AcceptedFiles(listing, formats) == listing;
    OutputsStrictlySorted(ordered);
    SortByNameRecovers(listing, ordered);
  }

  /** With the default `supported_formats`, the player loads what the
      extractor wrote, in the order it was written. */
  lemma DefaultFormatsLoadExtractedFiles(listing: seq<FileEntry>, ordered: seq<FileEntry>)
    requires |ordered| <= Pow10(CounterWidth)
    requires forall k :: 0 <= k < |ordered| ==> ordered[k].name == FrameName(k) && ordered[k].isFile
    requires multiset(listing) == multiset(ordered)
    ensures FrameFiles(Some(listing), DefaultFormats) == ordered
  {
    ExtractedFilesLoadInOrder(listing, ordered, DefaultFormats);
  }
}
