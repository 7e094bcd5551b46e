/**
 * Concrete runs of the engine and of the formatters, each stated as a
 * contract that follows from the general ones.
 */
module Scenarios {
  import opened JavaLang
  import opened Formatting
  import opened TextFit
  import opened FrameAnimation
  import opened WatchFace

  /** 09:07:05 on 15 March 2024: the text lines and the background after
      frame 5. */
  lemma MorningText()
    ensures TimeLine(9, 7, 5) == "09:07:05"
    ensures DateLine(15, 3, 2024) == "15/03/2024"
    ensures NextFrameIndex(5, FrameCount) == 6
  {
  }

  /** The binary rows of 09:07:05. */
  lemma MorningRows()
    ensures ZeroPadded(ToBinaryString(9), BinaryWidth) == "001001"
    ensures ZeroPadded(ToBinaryString(7), BinaryWidth) == "000111"
    ensures ZeroPadded(ToBinaryString(5), BinaryWidth) == "000101"
  {
  }

  /** Midnight on 1 January 2025, and a leap second shown in binary. */
  lemma MidnightAndLeapSecond()
    ensures TimeLine(0, 0, 0) == "00:00:00"
    ensures DateLine(1, 1, 2025) == "01/01/2025"
    ensures ZeroPadded(ToBinaryString(0), BinaryWidth) == "000000"
    ensures ZeroPadded(ToBinaryString(60), BinaryWidth) == "111100"
  {
  }

  /** Of the two command lines (equally long) the second one is sized. */
  lemma ConsoleReferenceIsDateCommand()
    ensures LongerText(TimeCommand, DateCommand) == DateCommand
  {
  }

  /** From the last frame the animation wraps to 0, then goes on to 1. */
  method FrameWrap() returns (e: Engine, first: int, second: int)
    ensures first == 0 && second == 1
  {
    e := new Engine();
    e.prevFrame := 38;
    first := e.NextFrame(FrameCount);
    second := e.NextFrame(FrameCount);
  }

  /** Hidden, shown, hidden, shown: the receiver is held once, and the timer
      was posted once per showing. */
  method VisibilityToggle() returns (e: Engine)
    ensures e.Valid() && e.registered && e.receivers == 1
    ensures e.posts == 2 && e.queue == [0]
  {
    e := new Engine();
    e.OnVisibilityChanged(false);
    e.OnVisibilityChanged(true);
    e.OnVisibilityChanged(false);
    e.OnVisibilityChanged(true);
  }

  /** Registering twice and unregistering once leaves the receiver off. */
  method RegisterTwiceUnregisterOnce() returns (e: Engine)
    ensures e.Valid() && !e.registered && e.receivers == 0
  {
    e := new Engine();
    e.RegisterReceiver();
    e.RegisterReceiver();
    e.UnregisterReceiver();
  }

  /** Visible in ambient mode: no timer waits, and a time tick requests
      exactly one repaint. */
  method AmbientTick() returns (e: Engine, before: nat)
    ensures e.queue == [] && e.repaints == before + 1
  {
    e := new Engine();
    e.OnVisibilityChanged(true);
    e.OnAmbientModeChanged(true);
    before := e.repaints;
    e.OnTimeTick();
  }

  /** A surface with an inner square 226 pixels wide, and widths growing by
      one pixel per character per half-unit: the console font settles at 4f
      (the first fit is 4.5f, 9 pixels high), the binary font at 17f. */
  method SizedSurface() returns (e: Engine)
    ensures fresh(e) && e.Valid() && e.prevFrame == 0
    ensures e.consoleMetric == Some(Metric(8, 9)) && e.binaryMetric == Some(Metric(34, 35))
  {
    var consoleWidth := (size: int, text: string) => 22 * size;
    var binaryWidth := (size: int, text: string) => 6 * size;
    var height := (size: int, text: string) => size;
    e := new Engine();
    var longer := LongerText(TimeCommand, DateCommand);
    e.OnSurfaceChanged(226, consoleWidth, height, binaryWidth, height, 91, 165);
    ghost var c := MaxTextSize(longer, ConsoleStart, consoleWidth, height, 226, 91);
    assert Fits(consoleWidth, longer, 9, 226);
    assert c.size == 8 && c.height == 9;
    assert e.consoleMetric == Some(c);
    ghost var b := MaxTextSize(BinaryReference, BinaryStart, binaryWidth, height, 226, 165);
    assert Fits(binaryWidth, BinaryReference, 35, 226);
    assert b.size == 34 && b.height == 35;
    assert e.binaryMetric == Some(b);
  }

  /** The first repaint on that surface at 09:07:05 on 15 March 2024. */
  method FirstDraw() returns (e: Engine, f: Frame)
    ensures f.consoleSize == 8 && f.binarySize == 34 && f.background == 1
    ensures f.console == [TimeCommand, "09:07:05", DateCommand, "15/03/2024"]
    ensures f.binary == ["001001", "000111", "000101"]
  {
    e := SizedSurface();
    f := e.OnDraw(9, 7, 5, 15, 2, 2024);
    MorningText();
    MorningRows();
  }
}
