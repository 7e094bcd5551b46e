/**
 * The watch-face engine: its state (the time-zone receiver flag, the ambient
 * flag, the frame index and the cached text metrics) and the lifecycle
 * callbacks that change it. The part of the host the engine reads or drives
 * is kept beside it as plain fields: the host's visible and ambient flags,
 * how many registrations of the receiver the host holds, the update messages
 * waiting in the handler (each one by its delay), and counts of repaint
 * requests and of posted messages.
 */
module WatchFace {
  import opened JavaLang
  import opened Formatting
  import opened TextFit
  import opened FrameAnimation
  import opened UpdateTimer

  datatype Option<T> = None | Some(value: T)

  /** The string whose width the binary font is sized against. */
  const BinaryReference: string := "000000"

  /** What one `onDraw` paints: the background frame index, the four console
      lines, the three binary rows, and the two text sizes (half-units). */
  datatype Frame = Frame(background: int, console: seq<string>, binary: seq<string>,
                         consoleSize: int, binarySize: int)

  class Engine {
    /** mRegisteredTimeZoneReceiver */
    var registered: bool
    /** mAmbient */
    var ambient: bool
    var prevFrame: int
    /** maxConsoleSize and maxBinarySize; null until the first onSurfaceChanged. */
    var consoleMetric: Option<Metric>
    var binaryMetric: Option<Metric>

    /** The host's isVisible() and isInAmbientMode(). */
    var visible: bool
    var hostAmbient: bool
    /** Registrations of mTimeZoneReceiver held by the host context. */
    var receivers: nat
    /** Delays of the update messages waiting in mUpdateTimeHandler, in order. */
    var queue: seq<int>
    /** invalidate() calls so far. */
    var repaints: nat
    /** Messages posted to mUpdateTimeHandler so far. */
    var posts: nat

    /** The receiver is held by the host exactly while the flag says so,
        mAmbient agrees with the host's ambient mode, at most one update
        message waits, and the frame index names a frame. */
    ghost predicate Valid()
      reads this
    {
      && receivers == (if registered then 1 else 0)
      && ambient == hostAmbient
      && |queue| <= 1
      && 0 <= prevFrame < FrameCount
    }

    /** `shouldTimerBeRunning`: visible and not in ambient mode, as the host reports. */
    predicate ShouldTimerBeRunning()
      reads this
    {
      visible && !hostAmbient
    }

    /** The one-second timer is pending exactly when it should be running. */
    ghost predicate TimerConsistent()
      reads this
    {
      (queue != []) == ShouldTimerBeRunning()
    }

    /** The engine as the host creates it: Java's defaults for every field. */
    constructor ()
      ensures Valid() && TimerConsistent()
      ensures !registered && !ambient && prevFrame == 0
      ensures consoleMetric == None && binaryMetric == None
      ensures !visible && !hostAmbient && receivers == 0
      ensures queue == [] && repaints == 0 && posts == 0
    {
      registered, ambient, prevFrame := false, false, 0;
      consoleMetric, binaryMetric := None, None;
      visible, hostAmbient, receivers := false, false, 0;
      queue, repaints, posts := [], 0, 0;
    }

    /** `registerReceiver`: a no-op when already registered. */
    method RegisterReceiver()
      requires Valid()
      modifies this`registered, this`receivers
      ensures Valid() && registered
      ensures old(registered) ==> receivers == old(receivers)
      ensures !old(registered) ==> receivers == old(receivers) + 1
    {
      if registered {
        return;
      }
      registered := true;
      receivers := receivers + 1;
    }

    /** `unregisterReceiver`: a no-op when not registered. */
    method UnregisterReceiver()
      requires Valid()
      modifies this`registered, this`receivers
      ensures Valid() && !registered
      ensures !old(registered) ==> receivers == old(receivers)
      ensures old(registered) ==> receivers == old(receivers) - 1
    {
      if !registered {
        return;
      }
      registered := false;
      receivers := receivers - 1;
    }

    /** `updateTimer`: drop every waiting update message, then post one for
        immediate delivery if the timer should run. */
    method UpdateTimer()
      modifies this`queue, this`posts
      ensures queue == if ShouldTimerBeRunning() then [0] else []
      ensures posts == old(posts) + if ShouldTimerBeRunning() then 1 else 0
      ensures TimerConsistent()
    {
      queue := [];
      if ShouldTimerBeRunning() {
        queue := queue + [0];
        posts := posts + 1;
      }
    }

    /** `onVisibilityChanged(v)`: the receiver is registered exactly while
        visible, becoming visible requests a repaint, and the timer is
        brought in line with the new state. */
    method OnVisibilityChanged(v: bool)
      requires Valid()
      modifies this`visible, this`registered, this`receivers, this`repaints, this`queue, this`posts
      ensures Valid() && TimerConsistent()
      ensures visible == v && registered == v
      ensures repaints == old(repaints) + if v then 1 else 0
      ensures queue == if v && !hostAmbient then [0] else []
      ensures posts == old(posts) + if v && !hostAmbient then 1 else 0
    {
      // The host reports the new visibility before it calls back.
      visible := v;
      if v {
        RegisterReceiver();
        repaints := repaints + 1;
      } else {
        UnregisterReceiver();
      }
      UpdateTimer();
    }

    /** `onAmbientModeChanged(a)`: keep `a` in mAmbient, request a repaint
        only if it changed, and bring the timer in line. */
    method OnAmbientModeChanged(inAmbientMode: bool)
      requires Valid()
      modifies this`hostAmbient, this`ambient, this`repaints, this`queue, this`posts
      ensures Valid() && TimerConsistent()
      ensures ambient == inAmbientMode && hostAmbient == inAmbientMode
      ensures repaints == old(repaints) + if old(ambient) != inAmbientMode then 1 else 0
      ensures queue == if visible && !inAmbientMode then [0] else []
      ensures posts == old(posts) + if visible && !inAmbientMode then 1 else 0
    {
      // The host reports the new mode before it calls back.
      hostAmbient := inAmbientMode;
      if ambient != inAmbientMode {
        ambient := inAmbientMode;
        repaints := repaints + 1;
      }
      UpdateTimer();
    }

    /** `handleMessage` for the update message at wall-clock time `now`:
        repaint, and repost with the second-aligned delay while the timer
        should run. The looper only delivers a message that is waiting. */
    method HandleMessage(now: int)
      requires Valid() && queue != []
      modifies this`queue, this`posts, this`repaints
      ensures Valid() && TimerConsistent()
      ensures repaints == old(repaints) + 1
      ensures queue == old(queue)[1..] + if ShouldTimerBeRunning() then [TimerDelay(now)] else []
      ensures posts == old(posts) + if ShouldTimerBeRunning() then 1 else 0
    {
      queue := queue[1..];
      repaints := repaints + 1;
      if ShouldTimerBeRunning() {
        queue := queue + [TimerDelay(now)];
        posts := posts + 1;
      }
    }

    /** `onTimeTick`: the host's once-a-minute tick requests one repaint. */
    method OnTimeTick()
      modifies this`repaints
      ensures repaints == old(repaints) + 1
    {
      repaints := repaints + 1;
    }

    /** mTimeZoneReceiver.onReceive: a time-zone change requests one repaint. */
    method OnTimeZoneChanged()
      modifies this`repaints
      ensures repaints == old(repaints) + 1
    {
      repaints := repaints + 1;
    }

    /** `onDestroy`: remove every waiting update message. */
    method OnDestroy()
      modifies this`queue
      ensures queue == []
    {
      queue := [];
    }

    /** `nextFrame(max)`: advance the frame index and return the new one. */
    method NextFrame(max: int) returns (r: int)
      modifies this`prevFrame
      ensures prevFrame == NextFrameIndex(old(prevFrame), max)
      ensures r == prevFrame
    {
      prevFrame := prevFrame + 1;
      if prevFrame == max {
        prevFrame := 0;
      }
      r := prevFrame;
    }

    /** `onSurfaceChanged`: size the console font against the longer command
        line from 50f down and the binary font against "000000" from 100f
        down, within the inner square's width, and restart the animation.
        The ghost step counts name a candidate that fits in each search. */
    method OnSurfaceChanged(innerWidth: int,
                            consoleWidth: (int, string) -> int, consoleHeight: (int, string) -> int,
                            binaryWidth: (int, string) -> int, binaryHeight: (int, string) -> int,
                            ghost consoleSteps: nat, ghost binarySteps: nat)
      requires Valid()
      requires Fits(consoleWidth, LongerText(TimeCommand, DateCommand), ConsoleStart - consoleSteps, innerWidth)
      requires Fits(binaryWidth, BinaryReference, BinaryStart - binarySteps, innerWidth)
      modifies this`consoleMetric, this`binaryMetric, this`prevFrame
      ensures Valid() && prevFrame == 0
      ensures consoleMetric == Some(MaxTextSize(LongerText(TimeCommand, DateCommand), ConsoleStart,
                                                consoleWidth, consoleHeight, innerWidth, consoleSteps))
      ensures binaryMetric == Some(MaxTextSize(BinaryReference, BinaryStart,
                                               binaryWidth, binaryHeight, innerWidth, binarySteps))
    {
      var longer := LongerText(TimeCommand, DateCommand);
      consoleMetric := Some(MaxTextSize(longer, ConsoleStart, consoleWidth, consoleHeight, innerWidth, consoleSteps));
      binaryMetric := Some(MaxTextSize(BinaryReference, BinaryStart, binaryWidth, binaryHeight, innerWidth, binarySteps));
      prevFrame := 0;
    }

    /** `onDraw` with the calendar fields of the current time (MONTH counted
        from 0, as Calendar does): advance the animation, then compose the
        console lines and the binary rows. */
    method OnDraw(hours: int, minutes: int, seconds: int, day: int, month0: int, year: int)
      returns (f: Frame)
      requires Valid() && consoleMetric.Some? && binaryMetric.Some?
      requires IsInt32(hours) && IsInt32(minutes) && IsInt32(seconds)
      modifies this`prevFrame
      ensures Valid()
      ensures prevFrame == NextFrameIndex(old(prevFrame), FrameCount)
      ensures f.background == prevFrame
      ensures f.console == [TimeCommand, TimeLine(hours, minutes, seconds),
                            DateCommand, DateLine(day, month0 + 1, year)]
      ensures f.binary == [ZeroPadded(ToBinaryString(hours), BinaryWidth),
                           ZeroPadded(ToBinaryString(minutes), BinaryWidth),
                           ZeroPadded(ToBinaryString(seconds), BinaryWidth)]
      ensures f.consoleSize == consoleMetric.value.size && f.binarySize == binaryMetric.value.size
    {
      var frame := NextFrame(FrameCount);
      var time2 := ParseTwoDigit(hours) + ":" + ParseTwoDigit(minutes) + ":" + ParseTwoDigit(seconds);
      var month := month0 + 1;
      var date2 := ParseTwoDigit(day) + "/" + ParseTwoDigit(month) + "/" + IntToString(year);
      var binaryHour := ToSixBits(ToBinaryString(hours));
      var binaryMinute := ToSixBits(ToBinaryString(minutes));
      var binarySecond := ToSixBits(ToBinaryString(seconds));
      f := Frame(frame, [TimeCommand, time2, DateCommand, date2],
                 [binaryHour, binaryMinute, binarySecond],
                 consoleMetric.value.size, binaryMetric.value.size);
    }
  }
}
