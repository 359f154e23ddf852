/**
  The frame arithmetic of `VideoPlayer.update`: which frame a session shows
  after a number of elapsed ticks, and when a non-looping session ends. The
  source computes the video's duration in ticks in single-precision floating
  point; here it is the exact `floor(totalFrames * 20 / frameRate)`.
*/
module Schedule {

  /** Server ticks per second. */
  const TicksPerSecond: nat := 20

  /** What a session does on a tick: end, or show the frame at `index`. */
  datatype Cue = End | Show(index: nat)

  /** `coerceAtMost`: the smaller of the two. */
  function Min(a: int, b: int): (m: int)
    ensures m <= a && m <= b
    ensures m == a || m == b
  {
    if a <= b then a else b
  }

  /** The length of the video in ticks, rounded down. */
  function Duration(totalFrames: nat, frameRate: int): (d: nat)
    requires frameRate > 0
    ensures d * frameRate <= totalFrames * TicksPerSecond < (d + 1) * frameRate
  {
    totalFrames * TicksPerSecond / frameRate
  }

  /** The frame to show `elapsed` ticks after the start, or `End` when a
      non-looping video is over. Looping never ends; a non-looping video ends
      exactly when the elapsed ticks reach its duration. */
  function FrameIndex(elapsed: nat, frameRate: int, totalFrames: nat, loop: bool): (c: Cue)
    requires frameRate > 0 && totalFrames > 0
    ensures c.Show? ==> c.index < totalFrames
    ensures loop ==> c.Show?
    ensures !loop ==> (c.End? <==> elapsed >= Duration(totalFrames, frameRate))
  {
    if !loop && elapsed >= Duration(totalFrames, frameRate) then End
    else if loop then Show((elapsed * frameRate / TicksPerSecond) % totalFrames)
    else Show(Min(elapsed * frameRate / TicksPerSecond, totalFrames - 1))
  }

  /** Before the duration is reached, the unclamped index is already a valid
      frame, so `coerceAtMost(totalFrames - 1)` never changes it. */
  lemma NonLoopIndexUnclamped(elapsed: nat, frameRate: int, totalFrames: nat)
    requires frameRate > 0 && totalFrames > 0
    requires elapsed < Duration(totalFrames, frameRate)
    ensures elapsed * frameRate / TicksPerSecond < totalFrames
    ensures FrameIndex(elapsed, frameRate, totalFrames, false) == Show(elapsed * frameRate / TicksPerSecond)
  {
    var d := Duration(totalFrames, frameRate);
    assert (elapsed + 1) * frameRate <= d * frameRate by {
      MulMonotone(elapsed + 1, d, frameRate);
    }
    var q := elapsed * frameRate / TicksPerSecond;
    assert q * TicksPerSecond <= elapsed * frameRate;
    assert elapsed * frameRate < totalFrames * TicksPerSecond;
    assert q < totalFrames;
  }

  lemma MulMonotone(a: nat, b: nat, k: nat)
    requires a <= b
    ensures a * k <= b * k
  {
  }

  /** The source never shows a frame past the end: once the elapsed ticks
      cover every frame (`elapsed * frameRate / 20 >= totalFrames`), a
      non-looping session has ended. */
  lemma EndsByLastFrame(elapsed: nat, frameRate: int, totalFrames: nat)
    requires frameRate > 0 && totalFrames > 0
    requires elapsed * frameRate / TicksPerSecond >= totalFrames
    ensures FrameIndex(elapsed, frameRate, totalFrames, false) == End
  {
    var d := Duration(totalFrames, frameRate);
    var q := elapsed * frameRate / TicksPerSecond;
    assert totalFrames * TicksPerSecond <= q * TicksPerSecond by {
      MulMonotone(totalFrames, q, TicksPerSecond);
    }
    assert totalFrames * TicksPerSecond <= elapsed * frameRate;
    if elapsed < d {
      MulMonotone(elapsed + 1, d, frameRate);
      assert false;
    }
  }

  /** When `20 * totalFrames` is a multiple of the frame rate, the end is
      exactly the first tick whose frame index is past the last frame. */
  lemma EndExactWhenDivisible(elapsed: nat, frameRate: int, totalFrames: nat)
    requires frameRate > 0 && totalFrames > 0
    requires (totalFrames * TicksPerSecond) % frameRate == 0
    ensures FrameIndex(elapsed, frameRate, totalFrames, false) == End
            <==> elapsed * frameRate / TicksPerSecond >= totalFrames
  {
    var d := Duration(totalFrames, frameRate);
    assert d * frameRate == totalFrames * TicksPerSecond;
    if elapsed >= d {
      MulMonotone(d, elapsed, frameRate);
      assert elapsed * frameRate >= totalFrames * TicksPerSecond;
    } else {
      NonLoopIndexUnclamped(elapsed, frameRate, totalFrames);
    }
  }

  /** Otherwise the session ends one tick early: at the tick equal to the
      duration the frame index still names a frame, yet the session ends. */
  lemma EndsEarlyWhenNotDivisible(frameRate: int, totalFrames: nat)
    requires frameRate > 0 && totalFrames > 0
    requires (totalFrames * TicksPerSecond) % frameRate != 0
    ensures var d := Duration(totalFrames, frameRate);
            FrameIndex(d, frameRate, totalFrames, false) == End
            && d * frameRate / TicksPerSecond < totalFrames
  {
    var d := Duration(totalFrames, frameRate);
    assert d * frameRate < totalFrames * TicksPerSecond;
    var q := d * frameRate / TicksPerSecond;
    assert q * TicksPerSecond <= d * frameRate;
  }

  /** A two-frame video at 30 frames per second never shows its second frame:
      it shows frame 0 on the first tick and has ended by the next. */
  lemma SecondFrameNeverShown(elapsed: nat)
    ensures FrameIndex(elapsed, 30, 2, false) == (if elapsed == 0 then Show(0) else End)
  {
  }

  /** 90 frames at 30 frames per second without looping: frame 0 at the start,
      the end after 60 ticks; with looping, frame 60 after 40 ticks. */
  lemma NinetyFrameExamples()
    ensures FrameIndex(0, 30, 90, false) == Show(0)
    ensures FrameIndex(59, 30, 90, false) == Show(88)
    ensures FrameIndex(60, 30, 90, false) == End
    ensures FrameIndex(40, 30, 90, true) == Show(60)
    ensures FrameIndex(60, 30, 90, true) == Show(0)
  {
  }
}
