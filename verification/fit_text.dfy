/** The binary-search text sizing of root/js/main.js (`fitText`).
    The DOM is replaced by `measure`: the rendered extent (`scrollWidth`,
    `scrollHeight`) of the element at a given font size in pixels. */
module FitText {

  const MinFontSize: int := 1
  const MaxFontSize: int := 500

  /** The number of probes a binary search over [1, 500] can need: 2^9 >= 500. */
  const MaxProbes: nat := 9

  datatype Extent = Extent(width: nat, height: nat)

  /** The bounds passed in: `maxWidth` and `maxHeight`. */
  datatype Box = Box(maxWidth: real, maxHeight: real)

  /** The source rejects a size when the element overflows either bound. */
  predicate Fits(e: Extent, box: Box) {
    !(e.width as real > box.maxWidth || e.height as real > box.maxHeight)
  }

  predicate FitsAt(measure: int -> Extent, box: Box, size: int) {
    Fits(measure(size), box)
  }

  /** The assumption the search relies on: the rendered extent does not shrink
      as the font grows. Text layout does not guarantee it, so it is a hypothesis. */
  ghost predicate Monotone(measure: int -> Extent) {
    forall a, b :: MinFontSize <= a <= b <= MaxFontSize ==>
      measure(a).width <= measure(b).width && measure(a).height <= measure(b).height
  }

  lemma MonotoneFitsBelow(measure: int -> Extent, box: Box, a: int, b: int)
    requires Monotone(measure)
    requires MinFontSize <= a <= b <= MaxFontSize && FitsAt(measure, box, b)
    ensures FitsAt(measure, box, a)
  {
  }

  /** Reference definition: the largest size in [1, hi] that fits, or 1 when none does. */
  function LargestFitUpTo(measure: int -> Extent, box: Box, hi: int): (r: int)
    requires MinFontSize <= hi <= MaxFontSize
    ensures MinFontSize <= r <= hi
    ensures r == MinFontSize || FitsAt(measure, box, r)
    ensures forall s :: r < s <= hi ==> !FitsAt(measure, box, s)
    decreases hi
  {
    if hi == MinFontSize || FitsAt(measure, box, hi) then hi
    else LargestFitUpTo(measure, box, hi - 1)
  }

  function LargestFit(measure: int -> Extent, box: Box): (r: int)
    ensures MinFontSize <= r <= MaxFontSize
  {
    LargestFitUpTo(measure, box, MaxFontSize)
  }

  /** Under monotonicity, a size that fits (or is 1) while the next one does not
      is the largest fitting size. */
  lemma LocalMaximumIsLargest(measure: int -> Extent, box: Box, s: int)
    requires Monotone(measure)
    requires MinFontSize <= s <= MaxFontSize
    requires s == MinFontSize || FitsAt(measure, box, s)
    requires s == MaxFontSize || !FitsAt(measure, box, s + 1)
    ensures s == LargestFit(measure, box)
  {
    var l := LargestFit(measure, box);
    if l > s {
      MonotoneFitsBelow(measure, box, s + 1, l);
    }
  }

  /** Widening the box never shrinks the chosen size (the scan needs no monotonicity). */
  lemma {:induction false} LargestFitGrowsWithBox(measure: int -> Extent, box: Box, box': Box, hi: int)
    requires MinFontSize <= hi <= MaxFontSize
    requires box.maxWidth <= box'.maxWidth && box.maxHeight <= box'.maxHeight
    ensures LargestFitUpTo(measure, box, hi) <= LargestFitUpTo(measure, box', hi)
    decreases hi
  {
    if hi != MinFontSize && !FitsAt(measure, box, hi) && !FitsAt(measure, box', hi) {
      LargestFitGrowsWithBox(measure, box, box', hi - 1);
    }
  }

  function Pow2(k: nat): (r: nat)
    ensures r >= 1
  {
    if k == 0 then 1 else 2 * Pow2(k - 1)
  }

  /** `fitText($el, maxWidth, maxHeight)`: the font size it finally applies, and the
      number of sizes it tried on the way. */
  method FitText(measure: int -> Extent, box: Box) returns (size: int, probes: nat)
    ensures MinFontSize <= size <= MaxFontSize
    ensures size == MinFontSize || FitsAt(measure, box, size)
    ensures size == MaxFontSize || !FitsAt(measure, box, size + 1)
    ensures probes <= MaxProbes
    ensures Monotone(measure) ==> size == LargestFit(measure, box)
  {
    var lo := MinFontSize;
    var hi := MaxFontSize;
    probes := 0;
    while lo < hi
      invariant MinFontSize <= lo <= hi <= MaxFontSize
      invariant lo == MinFontSize || FitsAt(measure, box, lo)
      invariant hi == MaxFontSize || !FitsAt(measure, box, hi + 1)
      invariant probes <= MaxProbes
      invariant hi - lo + 1 <= Pow2(MaxProbes - probes)
      decreases hi - lo
    {
      // Math.ceil((lo + hi) / 2) for positive lo + hi
      var mid := (lo + hi + 1) / 2;
      assert lo < mid <= hi;
      ghost var k := MaxProbes - probes;
      assert k >= 1;
      assert Pow2(k) == 2 * Pow2(k - 1);
      if !FitsAt(measure, box, mid) {
        hi := mid - 1;
      } else {
        lo := mid;
      }
      probes := probes + 1;
    }
    size := lo;
    if Monotone(measure) {
      LocalMaximumIsLargest(measure, box, size);
    }
  }
}
