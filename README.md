# Terminal watch face: a Dafny model of its engine logic

The watch face paints a Unix-terminal look on a smartwatch: an animated
background, two console command lines followed by the time (`HH:MM:SS`) and
the date (`DD/MM/YYYY`), and the hour, minute and second as three 6-bit
binary rows. This project models the engine's integer and string logic and
its lifecycle state, and proves what that logic promises:

- `JavaLang`: Java's `int` range, its truncating `%`, `Integer.toString` and
  `Integer.toBinaryString` (negative values as 32-bit two's complement), all
  built on one numeral function `DigitString` with its reader `DigitsValue`.
- `Formatting`: `parseTwoDigit`, `toSixBits` (a loop, kept as a method) and the
  time and date lines.
- `TextFit`: `maxTextSize`, the descending font-size search, with sizes in
  half-units and the text measurement passed in as functions.
- `FrameAnimation`: the frame index `nextFrame` keeps, one call and many.
- `UpdateTimer`: the second-aligned delay of the interactive timer.
- `WatchFace`: the engine as a class whose methods are its callbacks
  (`onVisibilityChanged`, `onAmbientModeChanged`, `handleMessage`, …). Host
  state the engine reads or drives is kept as fields beside the engine's own:
  the host's visible and ambient flags, the receiver registrations the host
  holds, the waiting update messages (as a list of delays), and counts of
  repaint requests (`invalidate()`) and posted messages.
- `Scenarios`: concrete runs (a morning time, midnight, a leap second, the
  frame wrap, visibility toggling, a tick in ambient mode, a sized surface and
  its first repaint).

Inputs the engine gets from the platform are parameters: the calendar
fields of the current time, the wall-clock milliseconds in `HandleMessage`,
the inner-square width, and the text width and height measurements.

Points where the program's behaviour is easy to misread:

- The returned size is half a unit below the first candidate that fits. That
  candidate fits (`TextFit.MaxTextSize` ensures exactly that); only the
  larger candidates fail.
- `maxTextSize` has no guard for a non-positive width budget: it recurses
  until a candidate fits. The model requires a fitting candidate (see Left
  out).
- `shouldTimerBeRunning` reads the host's `isVisible()` and
  `isInAmbientMode()`, not `mAmbient`. The model keeps both. Every callback
  keeps `Engine.Valid`, which includes that `mAmbient` equals the host's
  ambient flag, so the two never disagree in the model.

## Model

| member | source | states |
|---|---|---|
| JavaLang.Rem | app/src/main/java/me/raulbalanza/terminalwatchface/MyWatchFace.java:69-70 | Java's `%` by a positive divisor: it agrees with the mathematical remainder for a non-negative dividend, lies in (-b, 0] for a negative one, and is always congruent to the dividend modulo b |
| JavaLang.DigitStringRoundTrip | app/src/main/java/me/raulbalanza/terminalwatchface/MyWatchFace.java:313-314 | the decimal or binary numeral of n reads back as n, uses only digits of the base and has no leading zero |
| JavaLang.DigitStringLength | app/src/main/java/me/raulbalanza/terminalwatchface/MyWatchFace.java:313-314 | the numeral of n has at most k digits exactly when n < base^k |
| JavaLang.BinaryStringValue | app/src/main/java/me/raulbalanza/terminalwatchface/MyWatchFace.java:245-247 | `Integer.toBinaryString(x)` is a binary numeral of x mod 2^32: the plain digits for x >= 0, 32 digits for x < 0 |
| Formatting.ParseTwoDigitCorrect | app/src/main/java/me/raulbalanza/terminalwatchface/MyWatchFace.java:311-316 | for 0 <= v <= 99 the field is exactly two decimal digits whose value is v: the decimal of v from 10 on, "0" and the digit below 10 |
| Formatting.ParseTwoDigitWide | app/src/main/java/me/raulbalanza/terminalwatchface/MyWatchFace.java:311-316 | from 100 on the field is the full decimal of v, longer than two characters, not truncated |
| Formatting.ZeroPadded | app/src/main/java/me/raulbalanza/terminalwatchface/MyWatchFace.java:318-327 | the padded string is as long as the larger of width and the length of s, ends with s, has only '0' before it, and is s itself when s is already wide enough |
| Formatting.ToSixBits | app/src/main/java/me/raulbalanza/terminalwatchface/MyWatchFace.java:318-327 | the prepend-"0" loop returns s left-padded with '0' to six characters |
| Formatting.SixBitsRow | app/src/main/java/me/raulbalanza/terminalwatchface/MyWatchFace.java:245-255 | a binary row is a string over {'0','1'} whose base-2 value is v mod 2^32, and it is exactly six characters precisely when 0 <= v < 64 |
| Formatting.TimeLineLayout | app/src/main/java/me/raulbalanza/terminalwatchface/MyWatchFace.java:237 | for fields in [0, 99] the time line is 8 characters with ':' at 2 and 5, and each two-digit field reads back as its input |
| Formatting.DateLineLayout | app/src/main/java/me/raulbalanza/terminalwatchface/MyWatchFace.java:239-243 | the date line has '/' at 2 and 5, day and month read back as their inputs, the rest is exactly `Integer.toString(year)`, whose value is the year; it is 10 characters exactly for a four-digit year |
| TextFit.MaxTextSize | app/src/main/java/me/raulbalanza/terminalwatchface/MyWatchFace.java:290-309 | the result is c - 0.5 for the first candidate c from the start size downwards whose width is below innerWidth - 10; every candidate above c fails; the height is the one measured at c |
| TextFit.MaxTextSizeIgnoresSteps | app/src/main/java/me/raulbalanza/terminalwatchface/MyWatchFace.java:290-309 | the search result does not depend on the bound used to prove it terminates |
| TextFit.MaxTextSizeLargestFit | app/src/main/java/me/raulbalanza/terminalwatchface/MyWatchFace.java:290-309 | when width grows with size, a candidate not above the start fits exactly when it is at most c, so the returned size fits too |
| TextFit.LongerText | app/src/main/java/me/raulbalanza/terminalwatchface/MyWatchFace.java:209 | the reference line is one of the two, at least as long as each, and the second on a tie |
| FrameAnimation.NextFrameIndex | app/src/main/java/me/raulbalanza/terminalwatchface/MyWatchFace.java:269-275 | from an index in [0, max) one call gives (prev + 1) mod max, again in [0, max) |
| FrameAnimation.AdvanceIsModular | app/src/main/java/me/raulbalanza/terminalwatchface/MyWatchFace.java:269-275 | k successive calls from a valid index give (prev + k) mod max |
| FrameAnimation.EveryFrameShown | app/src/main/java/me/raulbalanza/terminalwatchface/MyWatchFace.java:269-275 | within any max successive calls every frame index is shown |
| FrameAnimation.AdvanceInRange | app/src/main/java/me/raulbalanza/terminalwatchface/MyWatchFace.java:269-275 | successive calls never leave [0, max) |
| UpdateTimer.TimerDelayAligned | app/src/main/java/me/raulbalanza/terminalwatchface/MyWatchFace.java:67-71 | the delay is positive and ends on a whole second; for now >= 0 it is at most 1000 and reaches the first whole second to come; for now < 0 it lies in [1000, 2000) |
| WatchFace.Engine.constructor | app/src/main/java/me/raulbalanza/terminalwatchface/MyWatchFace.java:85-115 | the new engine is unregistered, not ambient, at frame 0, with no metrics, no waiting message and no repaint requested |
| WatchFace.Engine.RegisterReceiver | app/src/main/java/me/raulbalanza/terminalwatchface/MyWatchFace.java:351-358 | afterwards registered; the host gains a registration only if there was none, so a second call changes nothing |
| WatchFace.Engine.UnregisterReceiver | app/src/main/java/me/raulbalanza/terminalwatchface/MyWatchFace.java:360-366 | afterwards unregistered; the host loses the registration only if there was one, so a call when not registered changes nothing |
| WatchFace.Engine.UpdateTimer | app/src/main/java/me/raulbalanza/terminalwatchface/MyWatchFace.java:368-373 | all waiting messages are dropped and exactly one immediate message is posted if and only if visible and not ambient |
| WatchFace.Engine.OnVisibilityChanged | app/src/main/java/me/raulbalanza/terminalwatchface/MyWatchFace.java:329-349 | afterwards the receiver is registered exactly when v, a repaint is requested when v, and the timer waits exactly when v and not ambient |
| WatchFace.Engine.OnAmbientModeChanged | app/src/main/java/me/raulbalanza/terminalwatchface/MyWatchFace.java:166-179 | mAmbient becomes a, a repaint is requested only when it changed, and the timer waits exactly when visible and not a |
| WatchFace.Engine.HandleMessage | app/src/main/java/me/raulbalanza/terminalwatchface/MyWatchFace.java:64-73 | the waiting message is consumed, one repaint is requested, and a message with the second-aligned delay is reposted exactly when the timer should run |
| WatchFace.Engine.OnTimeTick | app/src/main/java/me/raulbalanza/terminalwatchface/MyWatchFace.java:160-164 | a tick requests exactly one repaint and changes nothing else |
| WatchFace.Engine.OnTimeZoneChanged | app/src/main/java/me/raulbalanza/terminalwatchface/MyWatchFace.java:77-83 | a time-zone broadcast requests exactly one repaint |
| WatchFace.Engine.OnDestroy | app/src/main/java/me/raulbalanza/terminalwatchface/MyWatchFace.java:154-158 | no update message is left waiting |
| WatchFace.Engine.NextFrame | app/src/main/java/me/raulbalanza/terminalwatchface/MyWatchFace.java:269-275 | the frame index becomes its successor (0 after max - 1) and that new index is returned |
| WatchFace.Engine.OnSurfaceChanged | app/src/main/java/me/raulbalanza/terminalwatchface/MyWatchFace.java:181-214 | both cached metrics are the search results for the longer command line from 50f and "000000" from 100f, and the animation restarts at 0 |
| WatchFace.Engine.OnDraw | app/src/main/java/me/raulbalanza/terminalwatchface/MyWatchFace.java:216-267 | the background is the next frame, the console lines are the two commands with the time and the date lines, the binary rows are the padded binary hour, minute and second, at the cached sizes |
| Scenarios.MorningText | app/src/main/java/me/raulbalanza/terminalwatchface/MyWatchFace.java:233-255 | 09:07:05 on 15/03/2024 gives "09:07:05" and "15/03/2024", and frame 6 follows frame 5 |
| Scenarios.MorningRows | app/src/main/java/me/raulbalanza/terminalwatchface/MyWatchFace.java:233-255 | the binary rows of 09:07:05 are "001001", "000111" and "000101" |
| Scenarios.MidnightAndLeapSecond | app/src/main/java/me/raulbalanza/terminalwatchface/MyWatchFace.java:233-255 | midnight gives "00:00:00" and rows "000000"; second 60 gives "111100" |
| Scenarios.ConsoleReferenceIsDateCommand | app/src/main/java/me/raulbalanza/terminalwatchface/MyWatchFace.java:206-210 | the console font is sized against the date command line |
| Scenarios.FrameWrap | app/src/main/java/me/raulbalanza/terminalwatchface/MyWatchFace.java:269-275 | from frame 38 of 39 the next calls return 0, then 1 |
| Scenarios.VisibilityToggle | app/src/main/java/me/raulbalanza/terminalwatchface/MyWatchFace.java:329-366 | hidden, shown, hidden, shown leaves one registration and two timer posts |
| Scenarios.RegisterTwiceUnregisterOnce | app/src/main/java/me/raulbalanza/terminalwatchface/MyWatchFace.java:351-366 | two registrations and one unregistration leave the receiver unregistered |
| Scenarios.AmbientTick | app/src/main/java/me/raulbalanza/terminalwatchface/MyWatchFace.java:160-179 | visible in ambient mode no timer waits, and a tick requests exactly one repaint |
| Scenarios.SizedSurface | app/src/main/java/me/raulbalanza/terminalwatchface/MyWatchFace.java:181-214 | with a 226-pixel inner square and linear widths the console font settles at 4f and the binary font at 17f |
| Scenarios.FirstDraw | app/src/main/java/me/raulbalanza/terminalwatchface/MyWatchFace.java:216-267 | the first repaint on that surface shows frame 1 and the expected console lines and binary rows |

## Left out

- TextFit.MaxTextSize: the Java recursion has no bound and overflows the stack when no candidate fits. The model's requires asks for a ghost step count naming a candidate that fits, so that runaway case is not modelled.
- WatchFace.Engine.OnDraw: requires both cached metrics, so a repaint before the first `onSurfaceChanged` is not modelled. In Java that case throws: `createScaledBitmap` gets a zero width (line 226) and indexing the still-null `maxConsoleSize` array fails (line 251). The host sizes the surface before the first repaint.
- Drawing: canvas `drawText`/`drawBitmap`, bitmap decoding and scaling, and the paints' colours, stroke and antialiasing are host graphics calls (lines 123-149, 223-230, 259-265, 281).
- Geometry and text coordinates: the inner square is computed with `Math.sqrt(2)` in floating point, and the `printText` cursor and binary-row baselines are float coordinates (lines 192-204, 263-265, 277-288). The inner-square width is an input.
- Text measurement: `Paint.getTextBounds` and typeface loading are foreign calls (lines 137-142, 300). Width (`r.right`) and height (`r.height()`) are function parameters.
- Font sizes are integers in half-units. Java's float steps of 0.5 from 50 and 100 are exact, so nothing is lost over the range searched.
- Calendar and time zones: turning epoch milliseconds into fields, and rebinding the calendar to the default zone (lines 80, 151, 220, 233-241, 337), are library work. The calendar fields are inputs of `OnDraw`.
- Handler and broadcast delivery are not modelled as asynchrony. The waiting messages are a list of delays; when they fire is the caller's choice. The `what` tag check (line 65) is implicit because only update messages are posted.
- 32-bit overflow is not modelled: `prevFrame++` stays below 39 under `Engine.Valid`, `MONTH + 1` is at most 13, and a `long` time plus a delay below 2000 does not come near the limit.
- `onCreate` only loads resources (frames array, paints, typefaces, calendar). It holds no logic to model.

