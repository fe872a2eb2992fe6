/**
 * The chart's zoom buttons. Each reads the visible logical range (which
 * may be absent) and sets a new one: zooming in trims a fifth of the width
 * from each side, zooming out widens each side by three tenths of the
 * width without letting the left edge pass zero.
 */
module Zoom {
  import opened Options

  /** A visible logical range, in bar positions. */
  datatype Range = Range(from: real, to: real) {
    function Width(): real { to - from }
    function Mid(): real { (from + to) / 2.0 }
  }

  /** The range after "zoom in"; nothing happens when no range is visible. */
  function ZoomIn(visible: Option<Range>): (r: Option<Range>)
    ensures r.Some? <==> visible.Some?
    ensures r.Some? ==> r.value.Width() == visible.value.Width() * 0.6
    ensures r.Some? ==> r.value.Mid() == visible.value.Mid()
    ensures r.Some? && visible.value.from <= visible.value.to ==>
      visible.value.from <= r.value.from <= r.value.to <= visible.value.to
  {
    match visible
    case None => None
    case Some(v) =>
      var w := v.to - v.from;
      Some(Range(v.from + w * 0.2, v.to - w * 0.2))
  }

  /** The range after "zoom out"; nothing happens when no range is visible. */
  function ZoomOut(visible: Option<Range>): (r: Option<Range>)
    ensures r.Some? <==> visible.Some?
    ensures r.Some? ==> r.value.from >= 0.0
    ensures r.Some? ==> r.value.to == visible.value.to + visible.value.Width() * 0.3
    ensures r.Some? && visible.value.from - visible.value.Width() * 0.3 >= 0.0 ==>
      r.value.Width() == visible.value.Width() * 1.6 && r.value.Mid() == visible.value.Mid()
    ensures r.Some? && visible.value.from - visible.value.Width() * 0.3 < 0.0 ==> r.value.from == 0.0
    ensures r.Some? && 0.0 <= visible.value.from <= visible.value.to ==>
      r.value.from <= visible.value.from && visible.value.to <= r.value.to
  {
    match visible
    case None => None
    case Some(v) =>
      var size := v.to - v.from;
      var from := v.from - size * 0.3;
      Some(Range(if from >= 0.0 then from else 0.0, v.to + size * 0.3))
  }

  /**
   * Zooming out from a range that starts left of zero moves its left edge
   * right, onto zero: `(-10, 50)` becomes `(0, 68)`.
   */
  lemma ZoomOutNegativeFrom()
    ensures ZoomOut(Some(Range(-10.0, 50.0))) == Some(Range(0.0, 68.0))
    ensures exists v: Range :: v.from < 0.0 && ZoomOut(Some(v)).value.from > v.from
  {
    assert ZoomOut(Some(Range(-10.0, 50.0))).value.from > -10.0;
  }

  /** `k` presses of "zoom in". */
  function ZoomInTimes(visible: Option<Range>, k: nat): Option<Range>
    decreases k
  {
    if k == 0 then visible else ZoomIn(ZoomInTimes(visible, k - 1))
  }

  function Power(x: real, k: nat): real
    decreases k
  {
    if k == 0 then 1.0 else x * Power(x, k - 1)
  }

  /** After `k` presses the width is `0.6^k` of the original, about the same midpoint. */
  lemma {:induction false} ZoomInTimesScales(visible: Option<Range>, k: nat)
    requires visible.Some?
    ensures var r := ZoomInTimes(visible, k);
      && r.Some?
      && r.value.Width() == visible.value.Width() * Power(0.6, k)
      && r.value.Mid() == visible.value.Mid()
    decreases k
  {
    if k > 0 {
      ZoomInTimesScales(visible, k - 1);
      var w := visible.value.Width();
      var p := Power(0.6, k - 1);
      assert w * p * 0.6 == w * (0.6 * p);
    }
  }

  /** Pressing "zoom in" keeps shrinking the range inside the previous one. */
  lemma {:induction false} ZoomInTimesNested(visible: Option<Range>, k: nat)
    requires visible.Some? && visible.value.from <= visible.value.to
    ensures var r := ZoomInTimes(visible, k);
      && r.Some?
      && visible.value.from <= r.value.from <= r.value.to <= visible.value.to
    decreases k
  {
    if k > 0 {
      ZoomInTimesNested(visible, k - 1);
    }
  }
}
