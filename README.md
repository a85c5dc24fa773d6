# Spike countdown overlay: a Dafny model

This project models the core of a small desktop helper, `main.py`. The helper
watches a fixed 75×75 region at the top centre of the screen for a colour
signature. It also listens for middle-button presses. Either event shows an
always-on-top overlay with a 45-second countdown and a two-colour progress
bar. The last 7 seconds are a blue "reserve" segment that drains. When the
countdown runs out, the overlay closes and detection resumes, polling faster
than before.

The model has three modules, one per component of `main.py`:

- `Detector` (`detector.dfy`) models the colour-threshold detector as pure
  functions. `CaptureRegion` gives the capture rectangle for a screen width.
  `InRange` is the per-pixel colour test, `MatchCount` counts the mask, and
  `Detect` is the threshold test. The image is a flat, row-major sequence of
  three-channel 8-bit pixels.
- `Overlays` (`overlay.dfy`) holds the pure progress-bar geometry `Render(s)`,
  a sequence of coloured rectangles, together with the class `Overlay`. That
  class is the countdown: `secondsLeft` and `timerActive` are updated in place
  by `StartTimer` and `UpdateTimer`. A ghost counter `ticks` records the timer
  firings since the last start.
- `Tracker` (`tracker.dfy`) holds the class `ButtonTracker`, the state machine.
  It keeps the current overlay and the detector poll interval. `Click`,
  `Trigger`, `Poll` and `Tick` are the input-hook callback, the posted user
  event, the detector timer and the overlay timer. Ghost counters `triggers`
  and `expiries` count the overlays shown and the countdowns that ran out.

The program posts an event to its own event loop on a click or a detection.
The model delivers that event as a direct call to `Trigger`. The overlay's
timer calls back into the tracker when it expires. In the model,
`ButtonTracker.Tick` fires the current overlay's timer and calls
`StartDetectorTimer` itself when `UpdateTimer` reports expiry.

Some behaviours of the code that the model keeps:

- Widths are truncated with `int()`.
- Detection runs whenever no countdown is running (`!IsTimerActive()`, as in
  `main.py:159-162`), even while an expired overlay is still referenced: after
  expiry the tracker keeps the closed overlay, whose timer is stopped, until
  the next trigger replaces it.
- The switch from a 500 ms to a 250 ms poll is permanent.

## Model

| member | source | states |
|---|---|---|
| `Detector.CaptureRegion` | main.py:20-31 | The region is 75×75 at top 10. Its left edge is the floor of half the spare width, so `2·left ≤ width − 75 < 2·left + 2`. |
| `Detector.RegionFitsScreen` | main.py:21-31 | On a screen at least 75 wide, the region lies inside the screen. The right margin equals the left margin or is one larger. |
| `Detector.InRangeMeans` | main.py:42-46 | A pixel passes the bounds [124,0,0]..[170,0,0] iff channel 0 is in 124..170 and channels 1 and 2 are 0. |
| `Detector.MatchCount` | main.py:46-47 | The mask count never exceeds the number of pixels. |
| `Detector.MatchCountIsMaskSize` | main.py:46-47 | The count equals the number of pixel positions whose pixel is in range. |
| `Detector.MatchCountAppend` | main.py:46-47 | Counting the concatenation of two pixel runs gives the sum of their counts. |
| `Detector.Detect` | main.py:36-53 | The result is true iff more than 100 pixel positions are in range. |
| `Detector.SmallImageNeverMatches` | main.py:47-53 | An image of at most 100 pixels never matches. |
| `Detector.DetectMonotone` | main.py:46-53 | Adding pixels never turns a match into a non-match. |
| `Overlays.TruncDiv` | main.py:99-100 | Python's `int()` of a quotient truncates toward zero. The result is bracketed accordingly for both signs of the dividend. |
| `Overlays.ReserveWidthIs28` | main.py:98-99 | The blue width `int(7/45·180)` is 28. |
| `Overlays.ProgressPhase` | main.py:98-110 | For s > 7 the paint draws the frame (5,70,190,20). It then draws a blue segment (10,75,28,10) and a green segment (38,75,4s−28,10). At s = 45 the green width is 152. |
| `Overlays.ReservePhase` | main.py:102-113 | For s ≤ 7 the paint draws the frame and one blue segment (10,75,4s,10), and no green segment. The width is 28 at s = 7 and 0 at s = 0. |
| `Overlays.FilledWidthIsShare` | main.py:96-113 | The total coloured width is exactly s·180/45, in both phases. |
| `Overlays.FilledWidthMonotone` | main.py:105-113 | The coloured width never decreases as s grows. |
| `Overlays.BarInsideFrame` | main.py:91-113 | For 0 ≤ s ≤ 45, every coloured segment has non-negative width and lies inside the white frame. The bar ends at x = 10 + 4s. |
| `Overlays.Overlay.constructor` | main.py:57-71 | A new overlay starts its countdown at 45 with the timer running. |
| `Overlays.Overlay.StartTimer` | main.py:116-120 | After the call, `secondsLeft` is 45 and `timerActive` is true, with zero ticks since the start. |
| `Overlays.Overlay.UpdateTimer` | main.py:124-131 | `secondsLeft` drops by exactly 1. Expiry is reported iff it reaches 0, and expiry stops the timer. On a running, valid countdown, the 45th firing is the one that expires. |
| `Overlays.Overlay.Paint` | main.py:87-114 | Painting draws the frame first. The coloured width is the exact share s·180/45 of the current `secondsLeft`. |
| `Tracker.ButtonTracker.constructor` | main.py:137-144 | The tracker starts with no overlay and a 500 ms poll. |
| `Tracker.ButtonTracker.IsTimerActive` | main.py:159-162 | In a valid tracker, the timer is active iff there is an overlay with seconds left. |
| `Tracker.ButtonTracker.Trigger` | main.py:164-181 | Whatever was there before, exactly one fresh overlay becomes current, at 45 seconds with its timer running. The poll interval does not change. |
| `Tracker.ButtonTracker.Click` | main.py:147-153 | A middle-button press acts as `Trigger`. A release, or any other button, leaves the tracker unchanged. |
| `Tracker.ButtonTracker.Poll` | main.py:155-166 | The detector runs iff no countdown is active. It triggers, exactly once, iff it runs and more than 100 pixels are in range; otherwise nothing changes. |
| `Tracker.ButtonTracker.StartDetectorTimer` | main.py:183-185 | The poll interval becomes 250 ms, and nothing else changes. |
| `Tracker.ButtonTracker.Tick` | main.py:124-133 | A timer that is not running does not fire. A running one takes one second off. The 45th firing after a trigger stops the countdown and sets the poll to 250 ms. Otherwise the interval is unchanged, so once fast it never returns to 500 ms. |

## Left out

- Screen size, screenshots and image files (`pag.size`, `pag.screenshot`, `cv2.imread`) are not modelled. The screen width and the captured pixels are parameters, and which colour "channel 0" holds (RGB capture, BGR file) is left abstract.
- A capture or image-load failure, which the code does not catch, is not modelled; `Poll` always receives an image.
- The region is computed by `CaptureRegion`. `Poll` receives the already captured pixels rather than a screen to cut the region from.
- The injected detection callback is not a parameter of `Detect`. Its only non-trivial use is the tracker's, which `Poll` models by calling `Trigger` on a match. The default no-op callback has no observable effect.
- Overlays.Overlay.Paint, Overlays.BarInsideFrame, Overlays.Render, Overlays.TruncDiv, ProgressPhase, ReservePhase, FilledWidthIsShare: the code computes `int((s/45)*180)` and `int((s/7)*blue_width)` in double-precision floating point. The model uses exact integer arithmetic, which gives 4·s. In IEEE-754 doubles, `(13/45)*180` and `(26/45)*180` fall just below 52 and 104. The program as written therefore draws a green segment one pixel narrower at s = 13 and s = 26 (23 and 75 instead of 24 and 76), and the bar ends at x = 61 and 113 rather than 62 and 114.
- Qt window setup, the countdown label text, `show`/`close`, the `QPainter` calls and the real-time firing of `QTimer` are left out. Timer firings are explicit `Tick` and `Poll` calls, and painting is the returned segment list.
- The `hasattr(self, "seconds_left")` guard in `paintEvent` is not modelled. An overlay in the model always has its countdown set, because construction starts the timer.
- A preempted overlay is closed and dropped. The model does not follow its timer, which the code never stops, because whether that timer can still fire depends on Qt object lifetime.
- The mouse-listener thread, the cross-thread `postEvent`/`eventFilter` hand-off and `main()` start/stop/join are left out. Posted events are delivered as direct, sequential calls.
- `print` diagnostics are not modelled.
