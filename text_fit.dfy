/**
 * `maxTextSize`: the search, done once per surface size, for the font size
 * at which a reference string fits the inner square of the display. Sizes
 * are counted in half-units (a Java text size of 50.5f is 101 here), so the
 * search steps by exactly one. The width and height of the text's bounding
 * box at a size are the host's measurement, passed in as functions.
 */
module TextFit {

  /** A cached metric: a font size in half-units and the pixel height of the
      text's bounding box measured at the candidate that fitted. */
  datatype Metric = Metric(size: int, height: int)

  /** Pixels kept free on the right of a console line. */
  const RightMargin: int := 10

  /** First candidates: 50f for the console font, 100f for the binary font. */
  const ConsoleStart: int := 100
  const BinaryStart: int := 200

  /** The text measured at `size` is narrower than the layout budget. */
  predicate Fits(width: (int, string) -> int, text: string, size: int, innerWidth: int) {
    width(size, text) < innerWidth - RightMargin
  }

  /** `maxTextSize`: try `size`, then half a unit less, and so on; at the
      first candidate that fits return half a unit below it, with the height
      measured at that candidate. The ghost `steps` names a candidate known
      to fit; it only bounds the search and does not change the result
      (`MaxTextSizeIgnoresSteps`). */
  function MaxTextSize(text: string, size: int, width: (int, string) -> int,
                       height: (int, string) -> int, innerWidth: int, ghost steps: nat): (m: Metric)
    requires Fits(width, text, size - steps, innerWidth)
    decreases steps
    ensures size - steps <= m.size + 1 <= size
    ensures Fits(width, text, m.size + 1, innerWidth)
    ensures forall c :: m.size + 1 < c <= size ==> !Fits(width, text, c, innerWidth)
    ensures m.height == height(m.size + 1, text)
  {
    if Fits(width, text, size, innerWidth) then Metric(size - 1, height(size, text))
    else MaxTextSize(text, size - 1, width, height, innerWidth, steps - 1)
  }

  /** Any two bounds on the search give the same metric. */
  lemma MaxTextSizeIgnoresSteps(text: string, size: int, width: (int, string) -> int,
                                height: (int, string) -> int, innerWidth: int, steps1: nat, steps2: nat)
    requires Fits(width, text, size - steps1, innerWidth)
    requires Fits(width, text, size - steps2, innerWidth)
    ensures MaxTextSize(text, size, width, height, innerWidth, steps1)
         == MaxTextSize(text, size, width, height, innerWidth, steps2)
  {
  }

  /** The width grows with the font size. */
  ghost predicate MonotoneWidth(width: (int, string) -> int, text: string) {
    forall a, b :: a <= b ==> width(a, text) <= width(b, text)
  }

  /** When the width grows with the size, the search finds the largest
      candidate not above `size` that fits: a candidate up to `size` fits
      exactly when it is at most `m.size + 1`. In particular the returned
      size itself fits, as does every smaller one. */
  lemma {:induction false} MaxTextSizeLargestFit(text: string, size: int, width: (int, string) -> int,
                                                 height: (int, string) -> int, innerWidth: int, steps: nat)
    requires Fits(width, text, size - steps, innerWidth)
    requires MonotoneWidth(width, text)
    ensures forall c :: c <= size ==>
      (Fits(width, text, c, innerWidth) <==> c <= MaxTextSize(text, size, width, height, innerWidth, steps).size + 1)
  {
    var m := MaxTextSize(text, size, width, height, innerWidth, steps);
    forall c | c <= size
      ensures Fits(width, text, c, innerWidth) <==> c <= m.size + 1
    {
      if c <= m.size + 1 {
        assert width(c, text) <= width(m.size + 1, text);
      }
    }
  }

  /** `max = (time1.length() > date1.length() ? time1 : date1)`: the longer
      of the two strings, the second one on a tie. */
  function LongerText(first: string, second: string): (r: string)
    ensures r == first || r == second
    ensures |r| >= |first| && |r| >= |second|
    ensures |first| == |second| ==> r == second
  {
    if |first| > |second| then first else second
  }
}
