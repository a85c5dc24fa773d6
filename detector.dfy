/** The colour-threshold detector: a fixed capture region centred at the top of
    the screen, and a match test that counts the pixels inside an inclusive
    per-channel colour range. */
module Detector {

  /** One 8-bit colour channel, as stored in the captured image. */
  newtype Byte = x: int | 0 <= x < 256

  /** A three-channel pixel. Which colour "channel 0" is (red for a screen
      capture, blue for an image read from a file) does not matter here. */
  datatype Pixel = Pixel(c0: Byte, c1: Byte, c2: Byte)

  /** A screen rectangle: left, top, width, height. */
  datatype Region = Region(left: int, top: int, width: int, height: int)

  const RegionWidth: int := 75
  const RegionHeight: int := 75
  const RegionTop: int := 10

  /** Lower and upper bounds of the colour range, per channel. */
  const LowerBound: Pixel := Pixel(124, 0, 0)
  const UpperBound: Pixel := Pixel(170, 0, 0)

  /** A match needs strictly more than this many pixels in range. */
  const MinMatchCount: nat := 100

  /** The capture region for a screen of the given width: 75 by 75 at top 10,
      its left edge placed by floor division so that it is horizontally centred. */
  function CaptureRegion(screenWidth: int): (r: Region)
    ensures r.top == RegionTop && r.width == RegionWidth && r.height == RegionHeight
    // the left margin is half of the spare width, rounded down
    ensures 2 * r.left <= screenWidth - RegionWidth < 2 * r.left + 2
  {
    Region((screenWidth - RegionWidth) / 2, RegionTop, RegionWidth, RegionHeight)
  }

  /** On a screen at least as wide as the region, the region lies inside the
      screen, and the margin on its right is the left margin or one more. */
  lemma RegionFitsScreen(screenWidth: int)
    requires screenWidth >= RegionWidth
    ensures var r := CaptureRegion(screenWidth);
      0 <= r.left && r.left + r.width <= screenWidth &&
      screenWidth - (r.left + r.width) - r.left in {0, 1}
  {
  }

  /** Channel-wise inclusion in [LowerBound, UpperBound]. */
  predicate InRange(p: Pixel)
  {
    LowerBound.c0 <= p.c0 <= UpperBound.c0 &&
    LowerBound.c1 <= p.c1 <= UpperBound.c1 &&
    LowerBound.c2 <= p.c2 <= UpperBound.c2
  }

  /** With these bounds, a pixel is in range exactly when channel 0 lies in
      124..170 and the other two channels are zero. */
  lemma InRangeMeans(p: Pixel)
    ensures InRange(p) <==> 124 <= p.c0 as int <= 170 && p.c1 == 0 && p.c2 == 0
  {
  }

  /** The number of pixels of the image that lie in the colour range. */
  function MatchCount(img: seq<Pixel>): (n: nat)
    ensures n <= |img|
  {
    if img == [] then 0
    else MatchCount(img[..|img| - 1]) + (if InRange(img[|img| - 1]) then 1 else 0)
  }

  /** The positions of the in-range pixels: the reference definition of what
      the mask marks. */
  ghost function MatchingPositions(img: seq<Pixel>): set<int>
  {
    set i | 0 <= i < |img| && InRange(img[i])
  }

  /** Counting the mask agrees with the number of marked positions. */
  lemma {:induction false} MatchCountIsMaskSize(img: seq<Pixel>)
    ensures MatchCount(img) == |MatchingPositions(img)|
  {
    if img != [] {
      var n := |img| - 1;
      var front := img[..n];
      MatchCountIsMaskSize(front);
      var before := MatchingPositions(front);
      assert n !in before;
      if InRange(img[n]) {
        assert MatchingPositions(img) == before + {n};
      } else {
        assert MatchingPositions(img) == before;
      }
    }
  }

  /** Counting distributes over concatenation of two pixel runs. */
  lemma {:induction false} MatchCountAppend(a: seq<Pixel>, b: seq<Pixel>)
    ensures MatchCount(a + b) == MatchCount(a) + MatchCount(b)
  {
    if b != [] {
      var n := |b| - 1;
      assert (a + b)[..|a + b| - 1] == a + b[..n];
      MatchCountAppend(a, b[..n]);
    } else {
      assert a + b == a;
    }
  }

  /** The match test: true exactly when more than MinMatchCount pixels of the
      image are in range. The detection callback is the caller's business: a
      true result is what makes the caller invoke it, once. */
  function Detect(img: seq<Pixel>): (matched: bool)
    ensures matched <==> |MatchingPositions(img)| > MinMatchCount
  {
    MatchCountIsMaskSize(img);
    MatchCount(img) > MinMatchCount
  }

  /** An image of at most MinMatchCount pixels never matches. */
  lemma SmallImageNeverMatches(img: seq<Pixel>)
    requires |img| <= MinMatchCount
    ensures !Detect(img)
  {
    MatchCountIsMaskSize(img);
  }

  /** Adding pixels to an image can turn a non-match into a match but never
      the reverse. */
  lemma DetectMonotone(a: seq<Pixel>, b: seq<Pixel>)
    ensures Detect(a) ==> Detect(a + b)
  {
    MatchCountIsMaskSize(a);
    MatchCountIsMaskSize(a + b);
    MatchCountAppend(a, b);
  }
}
