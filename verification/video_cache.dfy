/**
 * The sampling window of a video file source (VideoFileSourceServerCache):
 * it turns a start time, an end time, a step and the length of the video
 * stream into a number of frames, and a frame index into a timestamp.
 *
 * Times enter as .NET TimeSpan ticks (100 ns each) and are converted to
 * seconds. The source computes in double precision; here seconds are exact
 * reals, so rounding of the double arithmetic is abstracted away.
 */
module VideoCache {

  /** A TimeSpan, as its count of 100-nanosecond ticks. */
  type Ticks = int

  const TicksPerSecond: int := 10_000_000

  /** TimeSpan.TotalMilliseconds / 1000.0, in exact arithmetic. */
  function Seconds(t: Ticks): (s: real)
    ensures s * TicksPerSecond as real == t as real
  {
    t as real / TicksPerSecond as real
  }

  /** The end actually used: the requested end, replaced by the stream length only when it exceeds it. */
  function EffectiveEnd(timeEndSec: real, streamLengthSec: real): (e: real)
    ensures e <= timeEndSec && e <= streamLengthSec
    ensures e == timeEndSec || e == streamLengthSec
  {
    if timeEndSec > streamLengthSec then streamLengthSec else timeEndSec
  }

  /**
   * Math.Floor of (end - start) / step: the number of whole steps between
   * the start and the effective end. It is not clamped at zero.
   */
  function FramesInInterval(startSec: real, stepSec: real, effectiveEndSec: real): (n: int)
    requires stepSec != 0.0
    ensures n as real <= (effectiveEndSec - startSec) / stepSec < n as real + 1.0
  {
    ((effectiveEndSec - startSec) / stepSec).Floor
  }

  /** The readonly state of a VideoFileSourceServerCache. */
  datatype ServerCache = ServerCache(
    width: int,
    height: int,
    bufferSize: int,
    videoStreamIndex: int,
    videoStreamLengthSec: real,
    startPositionSec: real,
    shiftSec: real,
    framesInInterval: int)
  {
    /** GetStreamPosition: the timestamp, in seconds, at which frame `frameNo` is sampled. */
    function GetStreamPosition(frameNo: int): (p: real)
      ensures shiftSec > 0.0 ==> (p >= startPositionSec <==> frameNo >= 0)
      ensures shiftSec > 0.0 ==> (p > startPositionSec <==> frameNo > 0)
    {
      startPositionSec + shiftSec * frameNo as real
    }

    /** The cache's frame count is the one of the window that ends at `endSec`. */
    ghost predicate WindowEndsAt(endSec: real)
    {
      shiftSec != 0.0 && framesInInterval == FramesInInterval(startPositionSec, shiftSec, endSec)
    }
  }

  /** The constructor of VideoFileSourceServerCache. */
  function NewServerCache(
    width: int, height: int, bufferSize: int, videoStreamIndex: int, videoStreamLengthSec: real,
    timeStart: Ticks, timeEnd: Ticks, timeStep: Ticks): (c: ServerCache)
    requires timeStep != 0
    ensures c.width == width && c.height == height && c.bufferSize == bufferSize
    ensures c.videoStreamIndex == videoStreamIndex && c.videoStreamLengthSec == videoStreamLengthSec
    ensures c.GetStreamPosition(0) == Seconds(timeStart)
    ensures c.shiftSec == Seconds(timeStep)
    ensures c.WindowEndsAt(EffectiveEnd(Seconds(timeEnd), videoStreamLengthSec))
  {
    var startSec := Seconds(timeStart);
    var shiftSec := Seconds(timeStep);
    var endSec := EffectiveEnd(Seconds(timeEnd), videoStreamLengthSec);
    ServerCache(width, height, bufferSize, videoStreamIndex, videoStreamLengthSec,
                startSec, shiftSec, FramesInInterval(startSec, shiftSec, endSec))
  }

  /** a <= b and k > 0 give a * k <= b * k. */
  lemma MulMonotonic(a: real, b: real, k: real)
    requires a <= b && k > 0.0
    ensures a * k <= b * k
  {
    assert b * k - a * k == (b - a) * k;
  }

  /** Consecutive sample positions are exactly one step apart. */
  lemma ConsecutivePositions(c: ServerCache, i: int)
    ensures c.GetStreamPosition(i + 1) - c.GetStreamPosition(i) == c.shiftSec
    ensures c.GetStreamPosition(0) == c.startPositionSec
  {
  }

  /**
   * With a positive step, every frame the window counts is sampled at or
   * after the start, and a whole step before its end.
   */
  lemma {:induction false} PositionsInsideWindow(c: ServerCache, endSec: real, i: int)
    requires c.WindowEndsAt(endSec) && c.shiftSec > 0.0
    requires 0 <= i < c.framesInInterval
    ensures c.startPositionSec <= c.GetStreamPosition(i)
    ensures c.GetStreamPosition(i) + c.shiftSec <= endSec
  {
    var q := (endSec - c.startPositionSec) / c.shiftSec;
    assert q * c.shiftSec == endSec - c.startPositionSec;
    MulMonotonic(0.0, i as real, c.shiftSec);
    MulMonotonic((i + 1) as real, q, c.shiftSec);
  }

  /** With a positive step, one frame more would already pass the end: the count is the largest one. */
  lemma {:induction false} WindowIsMaximal(c: ServerCache, endSec: real)
    requires c.WindowEndsAt(endSec) && c.shiftSec > 0.0
    ensures c.GetStreamPosition(c.framesInInterval) + c.shiftSec > endSec
  {
    var q := (endSec - c.startPositionSec) / c.shiftSec;
    var n := c.framesInInterval;
    assert q * c.shiftSec == endSec - c.startPositionSec;
    assert q < (n + 1) as real;
    MulMonotonicStrict(q, (n + 1) as real, c.shiftSec);
  }

  /** a < b and k > 0 give a * k < b * k. */
  lemma MulMonotonicStrict(a: real, b: real, k: real)
    requires a < b && k > 0.0
    ensures a * k < b * k
  {
    assert b * k - a * k == (b - a) * k;
  }

  /**
   * With a positive step the window holds no frame exactly when less than
   * one step separates the start from the end, and its count is negative
   * exactly when the start lies past the end.
   */
  lemma {:induction false} EmptyWindow(c: ServerCache, endSec: real)
    requires c.WindowEndsAt(endSec) && c.shiftSec > 0.0
    ensures c.framesInInterval <= 0 <==> endSec - c.startPositionSec < c.shiftSec
    ensures c.framesInInterval < 0 <==> endSec < c.startPositionSec
  {
    var q := (endSec - c.startPositionSec) / c.shiftSec;
    var n := c.framesInInterval;
    assert q * c.shiftSec == endSec - c.startPositionSec;
    if n <= 0 {
      MulMonotonicStrict(q, 1.0, c.shiftSec);
      assert endSec - c.startPositionSec < c.shiftSec;
    } else {
      assert 1.0 <= q;
      MulMonotonic(1.0, q, c.shiftSec);
      assert c.shiftSec <= endSec - c.startPositionSec;
    }
    if n < 0 {
      MulMonotonicStrict(q, 0.0, c.shiftSec);
      assert endSec < c.startPositionSec;
    } else {
      MulMonotonic(0.0, q, c.shiftSec);
      assert c.startPositionSec <= endSec;
    }
  }

  /** Start 0 s, end 10 s, step 0.5 s, stream of 20 s: 20 frames, the last one at 9.5 s. */
  lemma ScenarioWithinStream()
    ensures var c := NewServerCache(320, 240, 0, 0, 20.0, 0, 10 * TicksPerSecond, TicksPerSecond / 2);
      c.framesInInterval == 20 && c.GetStreamPosition(19) == 9.5
  {
  }

  /** Start 5 s, end 3 s, step 1 s: the start lies past the end, so the count is negative. */
  lemma ScenarioStartAfterEnd(streamLengthSec: real)
    ensures NewServerCache(320, 240, 0, 0, streamLengthSec, 5 * TicksPerSecond, 3 * TicksPerSecond, TicksPerSecond).framesInInterval < 0
  {
    var c := NewServerCache(320, 240, 0, 0, streamLengthSec, 5 * TicksPerSecond, 3 * TicksPerSecond, TicksPerSecond);
    EmptyWindow(c, EffectiveEnd(3.0, streamLengthSec));
  }

  /** Start 0 s, end 100 s, step 1 s, stream of 10 s: the stream length clamps the count to 10. */
  lemma ScenarioClampedByStream()
    ensures NewServerCache(320, 240, 0, 0, 10.0, 0, 100 * TicksPerSecond, TicksPerSecond).framesInInterval == 10
  {
  }
}
