/**
  The video player (`VideoPlayer`): the loaded animation, the registry of
  playing jukeboxes, and the per-tick pass that advances, renders or ends each
  session. Host services become parameters: the current tick, the state of the
  frames directory, and, per position, whether the block there is still a
  jukebox whose state is a `Jukebox` (`standing`). The display group handed to
  the render layer is recorded, per display identity, as the last group
  submitted under it.
*/
module Player {
  import opened Wrappers
  import opened Frames
  import opened Schedule
  import opened FrameStore
  import Disc

  /** A jukebox position in block coordinates. Sessions are keyed by position
      alone, as the source keys them by the position vector. */
  datatype Pos = Pos(x: int, y: int, z: int)

  /** `JukeboxData` without its host handles (the world and the jukebox block
      state). */
  datatype JukeboxData = JukeboxData(startTick: int, isCustomDisc: bool, displayGroup: DisplayGroup)

  /** The configuration values the player reads afresh each time it runs. */
  datatype Settings = Settings(loop: bool, doubleSided: bool, supportedFormats: seq<string>)

  /** No session started after `now`. */
  predicate StartedBy(sessions: map<Pos, JukeboxData>, now: int) {
    forall p :: p in sessions ==> sessions[p].startTick <= now
  }

  /** What one tick does to one session: end it when its jukebox is gone or
      it is not a custom disc session, otherwise what the frame arithmetic
      says. */
  function SessionCue(data: JukeboxData, standing: bool, now: int, frameRate: int, totalFrames: nat, loop: bool): (c: Cue)
    requires frameRate > 0 && totalFrames > 0 && data.startTick <= now
    ensures !standing || !data.isCustomDisc ==> c == End
    ensures standing && data.isCustomDisc ==> c == FrameIndex(now - data.startTick, frameRate, totalFrames, loop)
  {
    if !standing || !data.isCustomDisc then End
    else FrameIndex(now - data.startTick, frameRate, totalFrames, loop)
  }

  /** The private `isDisc(item)`: with custom discs on it defers to
      `Disc.isDisc`, otherwise it checks the material only. */
  function IsDiscItem(item: Option<Disc.Item>, useCustomDisc: bool, acceptRegularDiscs: bool): (accepted: bool)
    ensures accepted ==> item.Some? && item.value.material == Disc.MusicDiscBlocks
    ensures !useCustomDisc ==> (accepted <==> item.Some? && item.value.material == Disc.MusicDiscBlocks)
    ensures useCustomDisc && item.Some? ==> accepted == Disc.IsDisc(item.value, acceptRegularDiscs)
  {
    match item
    case None => false
    case Some(i) =>
      if useCustomDisc then Disc.IsDisc(i, acceptRegularDiscs) else i.material == Disc.MusicDiscBlocks
  }

  /** The private `isDisc(material)`: both branches test the same material,
      so the answer does not depend on `useCustomDisc`. */
  function IsDiscMaterial(material: Option<Disc.Material>, useCustomDisc: bool): (accepted: bool)
    ensures accepted <==> material == Some(Disc.MusicDiscBlocks)
  {
    match material
    case None => false
    case Some(m) =>
      if useCustomDisc then m == Disc.MusicDiscBlocks else m == Disc.MusicDiscBlocks
  }

  /** An item the item check accepts has a material the material check
      accepts, whatever the configuration. */
  lemma DiscItemHasDiscMaterial(item: Disc.Item, useCustomDisc: bool, acceptRegularDiscs: bool)
    requires IsDiscItem(Some(item), useCustomDisc, acceptRegularDiscs)
    ensures IsDiscMaterial(Some(item.material), useCustomDisc)
  {
  }

  class VideoPlayer {
    var videoFrames: seq<Frame>
    const frameRate: int
    const videoWidth: nat
    const videoHeight: nat
    var playingJukeboxes: map<Pos, JukeboxData>
    /** For each display identity, the group last submitted under it. */
    var submitted: map<Pos, DisplayGroup>

    ghost predicate Valid()
      reads this`videoFrames
    {
      && frameRate > 0
      && forall i :: 0 <= i < |videoFrames| ==> WellShaped(videoFrames[i], videoWidth, videoHeight)
    }

    constructor (frameRate: int, videoWidth: nat, videoHeight: nat)
      requires frameRate > 0
      ensures Valid()
      ensures this.frameRate == frameRate && this.videoWidth == videoWidth && this.videoHeight == videoHeight
      ensures videoFrames == [] && playingJukeboxes == map[] && submitted == map[]
    {
      this.frameRate := frameRate;
      this.videoWidth := videoWidth;
      this.videoHeight := videoHeight;
      videoFrames := [];
      playingJukeboxes := map[];
      submitted := map[];
    }

    /** `hasFrames()`. */
    function HasFrames(): (b: bool)
      reads this`videoFrames
      ensures b <==> videoFrames != []
    {
      |videoFrames| > 0
    }

    /** `loadVideo`: a missing directory, or a path that is not a directory,
        leaves the loaded frames as they were; otherwise the frames become
        the decodable accepted files in name order. */
    method LoadVideo(dir: Directory, formats: seq<string>)
      requires Valid() && DecodesToGrid(dir, videoWidth, videoHeight)
      modifies this`videoFrames
      ensures Valid()
      ensures !dir.found || !dir.isDirectory ==> videoFrames == old(videoFrames)
      ensures dir.found && dir.isDirectory ==> videoFrames == LoadedFrames(dir.listing, formats)
    {
      if !dir.found || !dir.isDirectory {
        return;
      }
      videoFrames := [];
      var frameFiles := FrameFiles(dir.listing, formats);
      var i := 0;
      while i < |frameFiles|
        invariant 0 <= i <= |frameFiles|
        invariant videoFrames == DecodedFrames(frameFiles[..i])
      {
        var frameFile := frameFiles[i];
        DecodedFramesSnoc(frameFiles, i);
        match frameFile.image {
          case Some(frame) =>
            videoFrames := videoFrames + [frame];
          case None =>
        }
        i := i + 1;
      }
      assert frameFiles[..i] == frameFiles;
      LoadedFramesFromAcceptedFiles(dir, formats, videoWidth, videoHeight);
    }

    /** `startJukeboxVideo`: an already playing position is left alone, so
        its start tick is kept; otherwise the animation is loaded if none is,
        and exactly one session starting now is added. */
    method StartJukeboxVideo(pos: Pos, now: int, framesDirectory: Directory, settings: Settings)
      requires Valid() && DecodesToGrid(framesDirectory, videoWidth, videoHeight)
      modifies this`playingJukeboxes, this`videoFrames
      ensures Valid()
      ensures pos in old(playingJukeboxes) ==>
                playingJukeboxes == old(playingJukeboxes) && videoFrames == old(videoFrames)
      ensures pos !in old(playingJukeboxes) ==>
                playingJukeboxes == old(playingJukeboxes)[pos := JukeboxData(now, true, map[])]
      ensures pos !in old(playingJukeboxes) ==>
                videoFrames == if old(videoFrames) == [] && framesDirectory.found && framesDirectory.isDirectory
                               then LoadedFrames(framesDirectory.listing, settings.supportedFormats)
                               else old(videoFrames)
    {
      if pos in playingJukeboxes {
        return;
      }
      if |videoFrames| == 0 {
        LoadVideo(framesDirectory, settings.supportedFormats);
      }
      playingJukeboxes := playingJukeboxes[pos := JukeboxData(now, true, map[])];
    }

    /** `stopJukeboxVideo`: removes the session at `pos`, if any. */
    method StopJukeboxVideo(pos: Pos)
      modifies this`playingJukeboxes
      ensures playingJukeboxes == old(playingJukeboxes) - {pos}
    {
      if pos in playingJukeboxes {
        playingJukeboxes := playingJukeboxes - {pos};
      }
    }

    /** `renderFrameForJukebox`: an index past the animation does nothing;
        otherwise the session's group is rebuilt for that frame and submitted
        under the session's identity. */
    method RenderFrameForJukebox(pos: Pos, currentFrame: nat, doubleSided: bool)
      requires Valid() && pos in playingJukeboxes
      modifies this`playingJukeboxes, this`submitted
      ensures currentFrame >= |videoFrames| ==>
                playingJukeboxes == old(playingJukeboxes) && submitted == old(submitted)
      ensures currentFrame < |videoFrames| ==>
                && pos in playingJukeboxes
                && playingJukeboxes == old(playingJukeboxes)[pos := old(playingJukeboxes)[pos].(displayGroup := playingJukeboxes[pos].displayGroup)]
                && RendersFrame(playingJukeboxes[pos].displayGroup, videoFrames[currentFrame], videoWidth, videoHeight, doubleSided)
                && submitted == old(submitted)[pos := playingJukeboxes[pos].displayGroup]
    {
      if currentFrame >= |videoFrames| {
        return;
      }
      var frame := videoFrames[currentFrame];
      var group := RenderFrame(frame, videoWidth, videoHeight, doubleSided);
      playingJukeboxes := playingJukeboxes[pos := playingJukeboxes[pos].(displayGroup := group)];
      submitted := submitted[pos := group];
    }

    /** The cue of session `p` of `sessions` on this tick. */
    ghost function CueOf(sessions: map<Pos, JukeboxData>, p: Pos, now: int, standing: set<Pos>, loop: bool): Cue
      reads this`videoFrames
      requires Valid() && |videoFrames| > 0 && p in sessions && StartedBy(sessions, now)
    {
      SessionCue(sessions[p], p in standing, now, frameRate, |videoFrames|, loop)
    }

    /** `after` is `before` showing frame `index`: same start and disc flag,
        and the group rendered for that frame. */
    ghost predicate Shows(before: JukeboxData, after: JukeboxData, index: nat, doubleSided: bool)
      reads this`videoFrames
      requires Valid() && index < |videoFrames|
    {
      && after.startTick == before.startTick
      && after.isCustomDisc == before.isCustomDisc
      && RendersFrame(after.displayGroup, videoFrames[index], videoWidth, videoHeight, doubleSided)
    }

    /** After a tick, a surviving session shows the frame its elapsed ticks
        select: `(elapsed * frameRate / 20) mod totalFrames` when looping, and
        otherwise `elapsed * frameRate / 20` itself, which the clamp to the
        last frame never changes. */
    lemma ShownFrame(before: map<Pos, JukeboxData>, sub0: map<Pos, DisplayGroup>,
                     after: map<Pos, JukeboxData>, sub1: map<Pos, DisplayGroup>,
                     now: int, standing: set<Pos>, settings: Settings, p: Pos)
      requires Valid() && |videoFrames| > 0 && StartedBy(before, now)
      requires Advanced(before, sub0, after, sub1, now, standing, settings)
      requires p in after
      ensures p in before && p in standing && before[p].isCustomDisc
      ensures var elapsed := now - before[p].startTick;
              var index := elapsed * frameRate / TicksPerSecond;
              && (settings.loop ==>
                    RendersFrame(after[p].displayGroup, videoFrames[index % |videoFrames|], videoWidth, videoHeight, settings.doubleSided))
              && (!settings.loop ==>
                    index < |videoFrames|
                    && RendersFrame(after[p].displayGroup, videoFrames[index], videoWidth, videoHeight, settings.doubleSided))
    {
      assert p in before && CueOf(before, p, now, standing, settings.loop).Show?;
      var data, n := before[p], |videoFrames|;
      var elapsed := now - data.startTick;
      var c := SessionCue(data, p in standing, now, frameRate, n, settings.loop);
      assert Shows(data, after[p], c.index, settings.doubleSided);
      assert c == FrameIndex(elapsed, frameRate, n, settings.loop);
      var index := elapsed * frameRate / TicksPerSecond;
      if settings.loop {
        assert c.index == index % n;
      } else {
        NonLoopIndexUnclamped(elapsed, frameRate, n);
        assert c.index == index;
      }
    }

    /** A looping session survives every tick while its jukebox stands and
        holds the custom disc. */
    lemma LoopingSessionsSurvive(before: map<Pos, JukeboxData>, sub0: map<Pos, DisplayGroup>,
                                 after: map<Pos, JukeboxData>, sub1: map<Pos, DisplayGroup>,
                                 now: int, standing: set<Pos>, settings: Settings, p: Pos)
      requires Valid() && |videoFrames| > 0 && StartedBy(before, now)
      requires Advanced(before, sub0, after, sub1, now, standing, settings)
      requires settings.loop && p in before && p in standing && before[p].isCustomDisc
      ensures p in after && after[p].startTick == before[p].startTick
    {
    }

    /** A session that ends on a tick submits nothing on it: what was last
        submitted under its identity stays as it was. */
    lemma EndedSessionsSubmitNothing(before: map<Pos, JukeboxData>, sub0: map<Pos, DisplayGroup>,
                                     after: map<Pos, JukeboxData>, sub1: map<Pos, DisplayGroup>,
                                     now: int, standing: set<Pos>, settings: Settings, p: Pos)
      requires Valid() && |videoFrames| > 0 && StartedBy(before, now)
      requires Advanced(before, sub0, after, sub1, now, standing, settings)
      requires p in before && p !in after
      ensures (p in sub1 <==> p in sub0) && (p in sub1 ==> sub1[p] == sub0[p])
    {
    }

    /** The sessions once those in `done` have been visited, starting from
        `before`: a visited session that shows a frame has been rendered for
        it; every other session is as it was. */
    ghost predicate SessionsVisited(before: map<Pos, JukeboxData>, after: map<Pos, JukeboxData>,
                                    now: int, standing: set<Pos>, settings: Settings, done: set<Pos>)
      reads this`videoFrames
      requires Valid() && |videoFrames| > 0 && StartedBy(before, now)
    {
      && after.Keys == before.Keys
      && (forall p :: p in before ==>
            var c := CueOf(before, p, now, standing, settings.loop);
            if p in done && c.Show? then Shows(before[p], after[p], c.index, settings.doubleSided)
            else after[p] == before[p])
    }

    /** The submissions once the sessions in `done` have been visited,
        starting from `sub0`: a visited session that shows a frame has
        submitted its group; every other identity holds what it held. */
    ghost predicate SubmissionsVisited(before: map<Pos, JukeboxData>, sub0: map<Pos, DisplayGroup>,
                                       after: map<Pos, JukeboxData>, sub1: map<Pos, DisplayGroup>,
                                       now: int, standing: set<Pos>, settings: Settings, done: set<Pos>)
      reads this`videoFrames
      requires Valid() && |videoFrames| > 0 && StartedBy(before, now) && after.Keys == before.Keys
    {
      && (forall p :: p in sub1 <==>
            p in sub0 || (p in before && p in done && CueOf(before, p, now, standing, settings.loop).Show?))
      && (forall p :: p in sub1 ==>
            sub1[p] == if p in before && p in done && CueOf(before, p, now, standing, settings.loop).Show?
                       then after[p].displayGroup else sub0[p])
    }

    /** `after` and `sub1` are the sessions and submissions once the sessions
        in `done` have been visited, starting from `before` and `sub0`. */
    ghost predicate Visited(before: map<Pos, JukeboxData>, sub0: map<Pos, DisplayGroup>,
                            after: map<Pos, JukeboxData>, sub1: map<Pos, DisplayGroup>,
                            now: int, standing: set<Pos>, settings: Settings, done: set<Pos>)
      reads this`videoFrames
      requires Valid() && |videoFrames| > 0 && StartedBy(before, now)
    {
      && SessionsVisited(before, after, now, standing, settings, done)
      && SubmissionsVisited(before, sub0, after, sub1, now, standing, settings, done)
    }

    /** The sessions after a whole tick: exactly those that show a frame
        remain, each rendered for its frame. */
    ghost predicate SessionsAdvanced(before: map<Pos, JukeboxData>, after: map<Pos, JukeboxData>,
                                     now: int, standing: set<Pos>, settings: Settings)
      reads this`videoFrames
      requires Valid() && |videoFrames| > 0 && StartedBy(before, now)
    {
      && (forall p :: p in after <==> p in before && CueOf(before, p, now, standing, settings.loop).Show?)
      && (forall p :: p in after ==>
            Shows(before[p], after[p], CueOf(before, p, now, standing, settings.loop).index, settings.doubleSided))
    }

    /** The submissions after a whole tick: each remaining session has
        submitted its group; the ended ones submit nothing. */
    ghost predicate SubmissionsAdvanced(sub0: map<Pos, DisplayGroup>, after: map<Pos, JukeboxData>, sub1: map<Pos, DisplayGroup>) {
      && (forall p :: p in sub1 <==> p in sub0 || p in after)
      && (forall p :: p in sub1 ==> sub1[p] == if p in after then after[p].displayGroup else sub0[p])
    }

    /** The outcome of a whole tick, from `before` and `sub0` to `after` and
        `sub1`: exactly the sessions that show a frame remain, each rendered
        for its frame and submitted; the ended ones are gone and submit
        nothing. */
    ghost predicate Advanced(before: map<Pos, JukeboxData>, sub0: map<Pos, DisplayGroup>,
                             after: map<Pos, JukeboxData>, sub1: map<Pos, DisplayGroup>,
                             now: int, standing: set<Pos>, settings: Settings)
      reads this`videoFrames
      requires Valid() && |videoFrames| > 0 && StartedBy(before, now)
    {
      SessionsAdvanced(before, after, now, standing, settings) && SubmissionsAdvanced(sub0, after, sub1)
    }

    /** `after'` and `sub1'` are `after` and `sub1` once the session at
        `position` has taken cue `c`: nothing changes when it ends; otherwise
        only its group changes, to the render of frame `c.index`, and that
        group is submitted under its identity. */
    ghost predicate Stepped(after: map<Pos, JukeboxData>, sub1: map<Pos, DisplayGroup>,
                            after': map<Pos, JukeboxData>, sub1': map<Pos, DisplayGroup>,
                            position: Pos, c: Cue, doubleSided: bool)
      reads this`videoFrames
      requires Valid() && (c.Show? ==> c.index < |videoFrames|)
    {
      && (c.End? ==> after' == after && sub1' == sub1)
      && (c.Show? ==>
            && position in after && position in after'
            && after' == after[position := after[position].(displayGroup := after'[position].displayGroup)]
            && RendersFrame(after'[position].displayGroup, videoFrames[c.index], videoWidth, videoHeight, doubleSided)
            && sub1' == sub1[position := after'[position].displayGroup])
    }

    /** Visiting one more session keeps `SessionsVisited`: an ended session is
        left for the sweep, a showing one is rendered. */
    lemma SessionsStep(before: map<Pos, JukeboxData>, after: map<Pos, JukeboxData>, sub1: map<Pos, DisplayGroup>,
                       after': map<Pos, JukeboxData>, sub1': map<Pos, DisplayGroup>,
                       now: int, standing: set<Pos>, settings: Settings, done: set<Pos>, position: Pos)
      requires Valid() && |videoFrames| > 0 && StartedBy(before, now)
      requires SessionsVisited(before, after, now, standing, settings, done)
      requires position in before && position !in done
      requires Stepped(after, sub1, after', sub1', position, CueOf(before, position, now, standing, settings.loop), settings.doubleSided)
      ensures SessionsVisited(before, after', now, standing, settings, done + {position})
    {
    }

    /** Visiting one more session keeps `SubmissionsVisited`: a showing
        session's group is submitted, nothing else is. */
    lemma SubmissionsStep(before: map<Pos, JukeboxData>, sub0: map<Pos, DisplayGroup>,
                          after: map<Pos, JukeboxData>, sub1: map<Pos, DisplayGroup>,
                          after': map<Pos, JukeboxData>, sub1': map<Pos, DisplayGroup>,
                          now: int, standing: set<Pos>, settings: Settings, done: set<Pos>, position: Pos)
      requires Valid() && |videoFrames| > 0 && StartedBy(before, now)
      requires after.Keys == before.Keys && after'.Keys == before.Keys
      requires SubmissionsVisited(before, sub0, after, sub1, now, standing, settings, done)
      requires position in before && position !in done
      requires Stepped(after, sub1, after', sub1', position, CueOf(before, position, now, standing, settings.loop), settings.doubleSided)
      ensures SubmissionsVisited(before, sub0, after', sub1', now, standing, settings, done + {position})
    {
    }

    /** `toRemove` holds exactly the sessions in `done` whose cue is `End`. */
    ghost predicate EndedAmong(before: map<Pos, JukeboxData>, toRemove: set<Pos>, now: int,
                               standing: set<Pos>, loop: bool, done: set<Pos>)
      reads this`videoFrames
      requires Valid() && |videoFrames| > 0 && StartedBy(before, now)
    {
      forall p :: p in toRemove <==> p in before && p in done && CueOf(before, p, now, standing, loop).End?
    }

    /** Marking one more visited session, when it ended, keeps `EndedAmong`. */
    lemma MarkStep(before: map<Pos, JukeboxData>, toRemove: set<Pos>, now: int, standing: set<Pos>,
                   loop: bool, done: set<Pos>, position: Pos, ended: bool)
      requires Valid() && |videoFrames| > 0 && StartedBy(before, now)
      requires EndedAmong(before, toRemove, now, standing, loop, done)
      requires position in before && before[position].startTick <= now
      requires ended <==> SessionCue(before[position], position in standing, now, frameRate, |videoFrames|, loop).End?
      ensures EndedAmong(before, if ended then toRemove + {position} else toRemove, now, standing, loop, done + {position})
    {
    }

    /** Removing, after a full pass, exactly the sessions whose cue is `End`
        completes the tick. */
    lemma SweepCompletesTick(before: map<Pos, JukeboxData>, sub0: map<Pos, DisplayGroup>,
                             visited: map<Pos, JukeboxData>, sub1: map<Pos, DisplayGroup>,
                             now: int, standing: set<Pos>, settings: Settings, toRemove: set<Pos>)
      requires Valid() && |videoFrames| > 0 && StartedBy(before, now)
      requires Visited(before, sub0, visited, sub1, now, standing, settings, before.Keys)
      requires EndedAmong(before, toRemove, now, standing, settings.loop, before.Keys)
      ensures Advanced(before, sub0, visited - toRemove, sub1, now, standing, settings)
    {
      SweepSessions(before, visited, now, standing, settings, toRemove);
      SweepSubmissions(before, sub0, visited, sub1, now, standing, settings, toRemove);
    }

    /** The sessions half of `SweepCompletesTick`. */
    lemma SweepSessions(before: map<Pos, JukeboxData>, visited: map<Pos, JukeboxData>,
                        now: int, standing: set<Pos>, settings: Settings, toRemove: set<Pos>)
      requires Valid() && |videoFrames| > 0 && StartedBy(before, now)
      requires SessionsVisited(before, visited, now, standing, settings, before.Keys)
      requires EndedAmong(before, toRemove, now, standing, settings.loop, before.Keys)
      ensures SessionsAdvanced(before, visited - toRemove, now, standing, settings)
    {
    }

    /** The submissions half of `SweepCompletesTick`. */
    lemma SweepSubmissions(before: map<Pos, JukeboxData>, sub0: map<Pos, DisplayGroup>,
                           visited: map<Pos, JukeboxData>, sub1: map<Pos, DisplayGroup>,
                           now: int, standing: set<Pos>, settings: Settings, toRemove: set<Pos>)
      requires Valid() && |videoFrames| > 0 && StartedBy(before, now) && visited.Keys == before.Keys
      requires SubmissionsVisited(before, sub0, visited, sub1, now, standing, settings, before.Keys)
      requires EndedAmong(before, toRemove, now, standing, settings.loop, before.Keys)
      ensures SubmissionsAdvanced(sub0, visited - toRemove, sub1)
    {
    }

    /** The body of the pass over the sessions in `update`, for the session at
        `position`: reports whether it is to end, and otherwise renders the
        frame its elapsed ticks select. */
    method AdvanceSession(position: Pos, now: int, standing: set<Pos>, settings: Settings) returns (ended: bool)
      requires Valid() && |videoFrames| > 0
      requires position in playingJukeboxes && playingJukeboxes[position].startTick <= now
      modifies this`playingJukeboxes, this`submitted
      ensures var c := SessionCue(old(playingJukeboxes)[position], position in standing, now, frameRate, |videoFrames|, settings.loop);
              && (ended <==> c.End?)
              && Stepped(old(playingJukeboxes), old(submitted), playingJukeboxes, submitted, position, c, settings.doubleSided)
    {
      var jukeboxData := playingJukeboxes[position];
      if position !in standing || !jukeboxData.isCustomDisc {
        return true;
      }
      var timeSinceStart := now - jukeboxData.startTick;
      var totalFrames := |videoFrames|;
      var totalVideoDuration := totalFrames * TicksPerSecond / frameRate;
      if !settings.loop && timeSinceStart >= totalVideoDuration {
        return true;
      }
      var currentFrame := if settings.loop then (timeSinceStart * frameRate / TicksPerSecond) % totalFrames
                          else Min(timeSinceStart * frameRate / TicksPerSecond, totalFrames - 1);
      RenderFrameForJukebox(position, currentFrame, settings.doubleSided);
      return false;
    }

    /** One iteration of the first loop of `update`: advances the session at
        `position` and adds it to the removal set when it ended. */
    method VisitOne(position: Pos, now: int, standing: set<Pos>, settings: Settings,
                    ghost before: map<Pos, JukeboxData>, ghost sub0: map<Pos, DisplayGroup>, ghost done: set<Pos>,
                    toRemove: set<Pos>) returns (toRemove': set<Pos>)
      requires Valid() && |videoFrames| > 0 && StartedBy(before, now)
      requires position in before && position !in done
      requires EndedAmong(before, toRemove, now, standing, settings.loop, done)
      requires Visited(before, sub0, playingJukeboxes, submitted, now, standing, settings, done)
      modifies this`playingJukeboxes, this`submitted
      ensures EndedAmong(before, toRemove', now, standing, settings.loop, done + {position})
      ensures Visited(before, sub0, playingJukeboxes, submitted, now, standing, settings, done + {position})
    {
      ghost var after, sub1 := playingJukeboxes, submitted;
      assert after[position] == before[position];
      var ended := AdvanceSession(position, now, standing, settings);
      MarkStep(before, toRemove, now, standing, settings.loop, done, position, ended);
      toRemove' := if ended then toRemove + {position} else toRemove;
      SessionsStep(before, after, sub1, playingJukeboxes, submitted, now, standing, settings, done, position);
      SubmissionsStep(before, sub0, after, sub1, playingJukeboxes, submitted, now, standing, settings, done, position);
    }

    /** The first loop of `update`: visits every session once, rendering the
        ones that show a frame, and returns the ones to end. */
    method VisitSessions(now: int, standing: set<Pos>, settings: Settings) returns (jukeboxesToRemove: set<Pos>)
      requires Valid() && |videoFrames| > 0 && StartedBy(playingJukeboxes, now)
      modifies this`playingJukeboxes, this`submitted
      ensures EndedAmong(old(playingJukeboxes), jukeboxesToRemove, now, standing, settings.loop, old(playingJukeboxes).Keys)
      ensures Visited(old(playingJukeboxes), old(submitted), playingJukeboxes, submitted, now, standing, settings,
                      old(playingJukeboxes).Keys)
    {
      ghost var before, sub0 := playingJukeboxes, submitted;
      jukeboxesToRemove := {};
      var pending := playingJukeboxes.Keys;
      while pending != {}
        invariant pending <= before.Keys
        invariant EndedAmong(before, jukeboxesToRemove, now, standing, settings.loop, before.Keys - pending)
        invariant Visited(before, sub0, playingJukeboxes, submitted, now, standing, settings, before.Keys - pending)
        decreases pending
      {
        var position :| position in pending;
        ghost var done := before.Keys - pending;
        pending := pending - {position};
        jukeboxesToRemove := VisitOne(position, now, standing, settings, before, sub0, done, jukeboxesToRemove);
        assert before.Keys - pending == done + {position};
      }
    }

    /** The second loop of `update`: removes the collected sessions. */
    method RemoveSessions(jukeboxesToRemove: set<Pos>)
      modifies this`playingJukeboxes
      ensures playingJukeboxes == old(playingJukeboxes) - jukeboxesToRemove
    {
      var rest := jukeboxesToRemove;
      while rest != {}
        invariant rest <= jukeboxesToRemove
        invariant playingJukeboxes == old(playingJukeboxes) - (jukeboxesToRemove - rest)
        decreases rest
      {
        var position :| position in rest;
        rest := rest - {position};
        playingJukeboxes := playingJukeboxes - {position};
      }
    }

    /** `update`: nothing happens while no frames are loaded; otherwise every
        session is visited once, the ones to end are collected and removed
        after the pass, and the others are rendered. */
    method Update(now: int, standing: set<Pos>, settings: Settings)
      requires Valid() && StartedBy(playingJukeboxes, now)
      modifies this`playingJukeboxes, this`submitted
      ensures Valid()
      ensures videoFrames == [] ==> playingJukeboxes == old(playingJukeboxes) && submitted == old(submitted)
      ensures videoFrames != [] ==>
                Advanced(old(playingJukeboxes), old(submitted), playingJukeboxes, submitted, now, standing, settings)
    {
      if |videoFrames| == 0 {
        return;
      }
      var jukeboxesToRemove := VisitSessions(now, standing, settings);
      SweepCompletesTick(old(playingJukeboxes), old(submitted), playingJukeboxes, submitted, now, standing, settings, jukeboxesToRemove);
      RemoveSessions(jukeboxesToRemove);
    }
  }

  /** Starting twice at one position before any stop leaves one session,
      with the first start tick. */
  method StartTwice(player: VideoPlayer, pos: Pos, first: int, second: int, dir: Directory, settings: Settings)
    requires player.Valid() && DecodesToGrid(dir, player.videoWidth, player.videoHeight)
    requires pos !in player.playingJukeboxes
    modifies player`playingJukeboxes, player`videoFrames
    ensures player.playingJukeboxes == old(player.playingJukeboxes)[pos := JukeboxData(first, true, map[])]
    ensures player.videoFrames == if old(player.videoFrames) == [] && dir.found && dir.isDirectory
                                  then LoadedFrames(dir.listing, settings.supportedFormats)
                                  else old(player.videoFrames)
  {
    player.StartJukeboxVideo(pos, first, dir, settings);
    player.StartJukeboxVideo(pos, second, dir, settings);
  }

  /** Stopping twice is stopping once. */
  method StopTwice(player: VideoPlayer, pos: Pos)
    modifies player`playingJukeboxes
    ensures player.playingJukeboxes == old(player.playingJukeboxes) - {pos}
  {
    player.StopJukeboxVideo(pos);
    player.StopJukeboxVideo(pos);
  }
}
