/** The countdown overlay: a 45-second counter ticked once per second, and the
    geometry that turns the seconds left into the rectangles of the progress
    bar (a white frame, a blue reserve segment and a green progress segment). */
module Overlays {

  const TotalSeconds: int := 45
  const ReserveSeconds: int := 7
  const TotalWidth: int := 180

  datatype Colour = White | Blue | Green

  /** A filled rectangle: left, top, width, height and fill colour. */
  datatype Segment = Segment(x: int, y: int, w: int, h: int, colour: Colour)

  /** The white frame, drawn on every paint. */
  const Frame: Segment := Segment(5, 70, 190, 20, White)

  const BarLeft: int := 10
  const BarTop: int := 75
  const BarHeight: int := 10

  /** Python's int() applied to the exact quotient a / b: truncation toward
      zero, which differs from Dafny's division for negative a. */
  function TruncDiv(a: int, b: int): (q: int)
    requires b > 0
    ensures a >= 0 ==> q * b <= a < q * b + b
    ensures a < 0 ==> q * b - b < a <= q * b
  {
    if a >= 0 then a / b else -((-a) / b)
  }

  /** Width of the reserve segment, int(7 / 45 * 180). */
  const ReserveWidth: int := TruncDiv(ReserveSeconds * TotalWidth, TotalSeconds)

  /** The reserve segment is 28 pixels wide. */
  lemma ReserveWidthIs28()
    ensures ReserveWidth == 28
  {
  }

  /** The segments painted for a given number of seconds left: the frame,
      then either a full reserve segment followed by a progress segment (more
      than 7 seconds left) or a draining reserve segment alone. */
  function Render(s: int): seq<Segment>
  {
    var blue := ReserveWidth;
    if s > ReserveSeconds then
      var green := TruncDiv(s * TotalWidth, TotalSeconds) - blue;
      [Frame, Segment(BarLeft, BarTop, blue, BarHeight, Blue),
       Segment(BarLeft + blue, BarTop, green, BarHeight, Green)]
    else
      var drain := TruncDiv(s * blue, ReserveSeconds);
      [Frame, Segment(BarLeft, BarTop, drain, BarHeight, Blue)]
  }

  /** While more than 7 seconds are left: frame, a 28-wide blue segment at
      x = 10, and a green segment right after it whose width is the exact
      share s / 45 of 180 minus the blue width. */
  lemma ProgressPhase(s: int)
    requires s > ReserveSeconds
    ensures var r := Render(s);
      |r| == 3 && r[0] == Frame &&
      r[1] == Segment(10, 75, 28, 10, Blue) &&
      r[2] == Segment(38, 75, 4 * s - 28, 10, Green)
  {
    ReserveWidthIs28();
    assert TruncDiv(s * TotalWidth, TotalSeconds) == 4 * s;
  }

  /** At 7 seconds or fewer: frame and a single blue segment at x = 10 whose
      width is the exact share s / 7 of the reserve width; no green segment. */
  lemma ReservePhase(s: int)
    requires s <= ReserveSeconds
    ensures var r := Render(s);
      |r| == 2 && r[0] == Frame &&
      r[1] == Segment(10, 75, 4 * s, 10, Blue) &&
      forall i :: 0 <= i < |r| ==> r[i].colour != Green
  {
    ReserveWidthIs28();
    assert TruncDiv(s * ReserveWidth, ReserveSeconds) == 4 * s;
  }

  /** The total width of the coloured (non-frame) segments. */
  function FilledWidth(segs: seq<Segment>): int
  {
    if segs == [] then 0
    else (if segs[0].colour == White then 0 else segs[0].w) + FilledWidth(segs[1..])
  }

  /** The filled part of the bar is always the exact share s / 45 of the full
      180 pixels: the two phases meet without a jump at s = 7, the bar is full
      at 45 and empty at 0. */
  lemma FilledWidthIsShare(s: int)
    ensures FilledWidth(Render(s)) == s * TotalWidth / TotalSeconds
  {
    var r := Render(s);
    assert FilledWidth(r) == FilledWidth(r[1..]);
    if s > ReserveSeconds {
      ProgressPhase(s);
      assert r[1..][1..][1..] == [];
      assert FilledWidth(r[1..][1..]) == 4 * s - 28;
      assert FilledWidth(r[1..]) == 4 * s;
    } else {
      ReservePhase(s);
      assert r[1..][1..] == [];
      assert FilledWidth(r[1..]) == 4 * s;
    }
    assert s * TotalWidth / TotalSeconds == 4 * s;
  }

  /** The drain segment and the filled width never shrink as s grows. */
  lemma FilledWidthMonotone(s: int, t: int)
    requires s <= t
    ensures FilledWidth(Render(s)) <= FilledWidth(Render(t))
  {
    FilledWidthIsShare(s);
    FilledWidthIsShare(t);
    assert s * TotalWidth <= t * TotalWidth;
  }

  /** For every value the countdown takes, the coloured segments have
      non-negative width and lie inside the white frame, and the last one ends
      at x = 10 + 4s. */
  lemma BarInsideFrame(s: int)
    requires 0 <= s <= TotalSeconds
    ensures var r := Render(s);
      forall i :: 1 <= i < |r| ==>
        0 <= r[i].w && Frame.x < r[i].x && r[i].x + r[i].w < Frame.x + Frame.w &&
        Frame.y < r[i].y && r[i].y + r[i].h < Frame.y + Frame.h
    ensures var r := Render(s); r[|r| - 1].x + r[|r| - 1].w == BarLeft + 4 * s
  {
    if s > ReserveSeconds { ProgressPhase(s); } else { ReservePhase(s); }
  }

  /** One countdown: the seconds left, and whether its one-second timer runs.
      `ticks` counts the timer firings since the countdown was (re)started. */
  class Overlay {
    var secondsLeft: int
    var timerActive: bool
    ghost var ticks: nat

    /** The countdown is 45 - ticks, and the timer runs until it reaches 0. */
    ghost predicate Valid()
      reads this
    {
      ticks <= TotalSeconds &&
      secondsLeft == TotalSeconds - ticks &&
      (timerActive <==> secondsLeft > 0)
    }

    /** Creating an overlay starts its countdown at once. */
    constructor ()
      ensures Valid()
      ensures secondsLeft == TotalSeconds && timerActive && ticks == 0
    {
      timerActive := true;
      new;
      StartTimer();
    }

    /** (Re)start the countdown at 45 with the timer running. */
    method StartTimer()
      modifies this
      ensures Valid()
      ensures secondsLeft == TotalSeconds && timerActive && ticks == 0
    {
      secondsLeft := TotalSeconds;
      timerActive := true;
      ticks := 0;
    }

    /** One firing of the one-second timer: one second less; reaching 0 stops
      the timer and is reported as expiry. */
    method UpdateTimer() returns (expired: bool)
      modifies this
      ensures secondsLeft == old(secondsLeft) - 1 && ticks == old(ticks) + 1
      ensures expired <==> secondsLeft == 0
      ensures timerActive == (old(timerActive) && !expired)
      ensures old(Valid()) && old(timerActive) ==> Valid() && (expired <==> ticks == TotalSeconds)
    {
      secondsLeft := secondsLeft - 1;
      ticks := ticks + 1;
      expired := secondsLeft == 0;
      if expired {
        timerActive := false;
      }
    }

    /** What a paint of this overlay draws. */
    function Paint(): (r: seq<Segment>)
      reads this
      ensures |r| > 0 && r[0] == Frame
      ensures FilledWidth(r) == secondsLeft * TotalWidth / TotalSeconds
    {
      FilledWidthIsShare(secondsLeft);
      Render(secondsLeft)
    }
  }
}
