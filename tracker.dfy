/** The tracker: the one state machine that reacts to middle-button presses,
    to positive detections and to the overlay's timer, keeps the current
    overlay and the detector's poll interval. Events that the program posts
    to its own event loop are delivered here as direct calls, in order. */
module Tracker {
  import opened Detector
  import opened Overlays

  /** Detector poll intervals, in milliseconds. */
  const SlowPoll: int := 500
  const FastPoll: int := 250

  /** The mouse buttons the input hook reports. */
  datatype Button = Left | Middle | Right | Unknown

  class ButtonTracker {
    /** The current overlay, if one was ever shown; an expired one stays here
        with its timer stopped until a trigger replaces it. */
    var overlay: Overlay?
    /** The interval of the detector poll timer. */
    var pollInterval: int
    /** How many countdowns have run out, and how many overlays were shown. */
    ghost var expiries: nat
    ghost var triggers: nat

    /** The current overlay keeps its own invariant, and the poll is slow
        until the first countdown runs out and fast from then on. */
    ghost predicate Valid()
      reads this, overlay
    {
      (overlay != null ==> overlay.Valid()) &&
      pollInterval == (if expiries == 0 then SlowPoll else FastPoll)
    }

    /** At start there is no overlay and the detector polls every 500 ms. */
    constructor ()
      ensures Valid()
      ensures overlay == null && pollInterval == SlowPoll
      ensures expiries == 0 && triggers == 0
    {
      overlay := null;
      pollInterval := SlowPoll;
      expiries := 0;
      triggers := 0;
    }

    /** Whether a countdown is running, which is what suppresses detection. */
    predicate IsTimerActive()
      reads this, overlay
      ensures Valid() ==>
        (IsTimerActive() <==> overlay != null && 0 < overlay.secondsLeft)
    {
      overlay != null && overlay.timerActive
    }

    /** A trigger (a click or a detection): whatever overlay was there is
        dropped, and a fresh one with a full 45-second countdown takes its
        place. The poll interval is untouched. */
    method Trigger()
      requires Valid()
      modifies this
      ensures Valid()
      ensures overlay != null && fresh(overlay)
      ensures overlay.secondsLeft == TotalSeconds && overlay.timerActive && overlay.ticks == 0
      ensures IsTimerActive()
      ensures pollInterval == old(pollInterval) && expiries == old(expiries)
      ensures triggers == old(triggers) + 1
    {
      overlay := new Overlay();
      triggers := triggers + 1;
    }

    /** The input hook's report of a button going down or up. Only a press of
        the middle button is a trigger; anything else changes nothing. */
    method Click(button: Button, pressed: bool)
      requires Valid()
      modifies this
      ensures Valid()
      ensures pollInterval == old(pollInterval) && expiries == old(expiries)
      ensures button == Middle && pressed ==>
        overlay != null && fresh(overlay) && overlay.secondsLeft == TotalSeconds &&
        overlay.timerActive && triggers == old(triggers) + 1
      ensures !(button == Middle && pressed) ==> unchanged(this)
    {
      if button == Middle && pressed {
        Trigger();
      }
    }

    /** One firing of the detector poll timer, with the image the capture
        returned. The detector runs only while no countdown is running; a
        match triggers, exactly once. */
    method Poll(img: seq<Pixel>) returns (sampled: bool, matched: bool)
      requires Valid()
      modifies this
      ensures Valid()
      ensures sampled <==> !old(IsTimerActive())
      ensures matched <==> sampled && |MatchingPositions(img)| > MinMatchCount
      ensures pollInterval == old(pollInterval) && expiries == old(expiries)
      ensures triggers == old(triggers) + (if matched then 1 else 0)
      ensures matched ==>
        overlay != null && fresh(overlay) && overlay.secondsLeft == TotalSeconds &&
        overlay.timerActive
      ensures !matched ==> unchanged(this)
    {
      sampled := !IsTimerActive();
      matched := false;
      if sampled {
        matched := Detect(img);
        if matched {
          Trigger();
        }
      }
    }

    /** The detector timer is restarted at the fast interval; nothing else
        changes. */
    method StartDetectorTimer()
      modifies this`pollInterval
      ensures pollInterval == FastPoll
    {
      pollInterval := FastPoll;
    }

    /** One firing of the current overlay's one-second timer, which fires only
        while its countdown runs. The 45th firing after a trigger brings the
        countdown to 0, stops it and switches detection to the fast interval. */
    method Tick() returns (expired: bool)
      requires Valid()
      modifies this, overlay
      ensures Valid()
      ensures overlay == old(overlay) && triggers == old(triggers)
      ensures !old(IsTimerActive()) ==>
        !expired && unchanged(this) && (overlay != null ==> unchanged(overlay))
      ensures old(IsTimerActive()) ==>
        overlay.secondsLeft == old(overlay.secondsLeft) - 1 &&
        overlay.ticks == old(overlay.ticks) + 1 &&
        (expired <==> overlay.ticks == TotalSeconds)
      ensures expired ==>
        !IsTimerActive() && overlay.secondsLeft == 0 &&
        pollInterval == FastPoll && expiries == old(expiries) + 1
      ensures !expired ==> pollInterval == old(pollInterval) && expiries == old(expiries)
    {
      expired := false;
      if IsTimerActive() {
        expired := overlay.UpdateTimer();
        if expired {
          StartDetectorTimer();
          expiries := expiries + 1;
        }
      }
    }
  }
}
