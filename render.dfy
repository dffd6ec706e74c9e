/** The arithmetic of the strip's draw pass: each tab's highlight factor, the
    left-to-right or right-to-left x cursor, the mirrored indicator, the
    counter alpha factor with its default alpha policy, and the strip's touch
    gating. Colours and canvas calls are not modelled. */
module Render {
  import opened Util
  import opened Geometry

  /** The explicit transition is well formed: when both ends are set they
      differ (`setFromTo` never stores `from == to` other than `-1, -1`). */
  predicate TransitionOk(fromIndex: int, toIndex: int) {
    fromIndex == -1 || toIndex == -1 || fromIndex != toIndex
  }

  /** The per-tab highlight `factor` of `draw`: with an explicit transition
      the destination fades in and the origin fades out in proportion to the
      distance travelled, other tabs are dark; otherwise a triangle of width
      one around the selection position. */
  function HighlightFactor(fromIndex: int, toIndex: int, f: real, index: int): real
    requires TransitionOk(fromIndex, toIndex)
  {
    if fromIndex != -1 && toIndex != -1 then
      var diff := AbsInt(toIndex - fromIndex) as real;
      if index == toIndex then AbsReal(f - fromIndex as real) / diff
      else if index == fromIndex then 1.0 - AbsReal(f - fromIndex as real) / diff
      else 0.0
    else
      var abs := AbsReal(f - index as real);
      if abs <= 1.0 then 1.0 - abs else 0.0
  }

  /** Without a transition the factor lies in `[0, 1]`, is 1 exactly on the
      selected tab, positive exactly within distance one of it, and falls
      off linearly. */
  lemma HighlightWithoutTransition(f: real, index: int)
    ensures var r := HighlightFactor(-1, -1, f, index);
      && 0.0 <= r <= 1.0
      && (r == 1.0 <==> f == index as real)
      && (r > 0.0 <==> AbsReal(f - index as real) < 1.0)
      && (AbsReal(f - index as real) <= 1.0 ==> r == 1.0 - AbsReal(f - index as real))
  {
  }

  /** During a transition with the position between its ends, the two ends'
      factors lie in `[0, 1]` and always add up to one; the destination is
      fully lit on arrival and the origin at the start; every other tab is
      dark. */
  lemma HighlightDuringTransition(fromIndex: int, toIndex: int, f: real, other: int)
    requires fromIndex != -1 && toIndex != -1 && fromIndex != toIndex
    requires other != fromIndex && other != toIndex
    requires Min(fromIndex, toIndex) as real <= f <= Max(fromIndex, toIndex) as real
    ensures var t := HighlightFactor(fromIndex, toIndex, f, toIndex);
      var o := HighlightFactor(fromIndex, toIndex, f, fromIndex);
      && 0.0 <= t <= 1.0 && 0.0 <= o <= 1.0
      && t + o == 1.0
      && (f == toIndex as real ==> t == 1.0)
      && (f == fromIndex as real ==> o == 1.0)
      && HighlightFactor(fromIndex, toIndex, f, other) == 0.0
  {
    var diff := AbsInt(toIndex - fromIndex) as real;
    var d := AbsReal(f - fromIndex as real);
    assert 0.0 <= d <= diff;
    DivideBounds(d, diff);
  }

  lemma DivideBounds(d: real, diff: real)
    requires 0.0 <= d <= diff && diff > 0.0
    ensures 0.0 <= d / diff <= 1.0
    ensures d == diff ==> d / diff == 1.0
  {
  }

  /** The x cursor at which `draw` places tab `i`, given every tab's drawn
      width: left to right it is the sum of the widths before it; right to
      left it starts at `totalWidth` and steps back over each tab before
      drawing it. */
  function DrawX(drawWidths: seq<int>, i: int, rtl: bool, totalWidth: int): int
    requires 0 <= i < |drawWidths|
  {
    if rtl then totalWidth - Sum(drawWidths[..i + 1]) else Sum(drawWidths[..i])
  }

  /** The right-to-left cursor mirrors the left-to-right one against
      `totalWidth`, and consecutive tabs are drawn edge to edge. */
  lemma DrawXMirrors(drawWidths: seq<int>, i: int, totalWidth: int)
    requires 0 <= i < |drawWidths|
    ensures DrawX(drawWidths, i, true, totalWidth) == totalWidth - DrawX(drawWidths, i, false, totalWidth) - drawWidths[i]
    ensures i + 1 < |drawWidths| ==>
      DrawX(drawWidths, i + 1, false, totalWidth) == DrawX(drawWidths, i, false, totalWidth) + drawWidths[i]
    ensures i + 1 < |drawWidths| ==>
      DrawX(drawWidths, i + 1, true, totalWidth) + drawWidths[i + 1] == DrawX(drawWidths, i, true, totalWidth)
  {
    PrefixStep(drawWidths, i);
    if i + 1 < |drawWidths| {
      PrefixStep(drawWidths, i + 1);
    }
  }

  /** The indicator's drawn left edge: mirrored against `totalWidth` when
      the layout is right to left. */
  function IndicatorLeft(rtl: bool, totalWidth: int, selectionLeft: int, selectionWidth: int): int {
    if rtl then totalWidth - selectionLeft - selectionWidth else selectionLeft
  }

  /** In wrap mode, where tabs are drawn at their padded actual widths, an
      indicator computed for integral position `k` is drawn exactly over tab
      `k`, in either direction. */
  lemma IndicatorCoversTab(paddedWidths: seq<int>, slot: int, k: int, rtl: bool, totalWidth: int)
    requires 0 <= k < |paddedWidths|
    ensures var r := SelectionGeometry(paddedWidths, slot, true, k as real).value;
      && IndicatorLeft(rtl, totalWidth, r.left, r.width) == DrawX(paddedWidths, k, rtl, totalWidth)
      && r.width == paddedWidths[k]
  {
    WrapSelectionAtTab(paddedWidths, slot, k);
    PrefixStep(paddedWidths, k);
  }

  /** `MathUtils.clamp` to `[0, 1]`. */
  function Clamp01(x: real): real {
    if x < 0.0 then 0.0 else if x > 1.0 then 1.0 else x
  }

  /** The alpha factor passed to the counter alpha policy for the text and
      background of tab `i`'s counter: closeness to the selection, raised
      near the start of the strip when the first tab is a hidden placeholder,
      and full for tab 1 while the position is below 1. */
  function CounterAlphaFactor(f: real, i: int, firstHidden: bool): (a: real)
    ensures 0.0 <= a <= 1.0
    ensures a >= 1.0 - Clamp01(AbsReal(f - i as real))
    ensures firstHidden && i == 1 && f < 1.0 ==> a == 1.0
    ensures !firstHidden ==> a == 1.0 - Clamp01(AbsReal(f - i as real))
  {
    var base := 1.0 - Clamp01(AbsReal(f - i as real));
    if firstHidden then
      if i == 1 && f < 1.0 then 1.0
      else if base >= 1.0 - Clamp01(f) then base else 1.0 - Clamp01(f)
    else base
  }

  /** The default `CounterAlphaProvider`: `0.5 + 0.5 × alphaFactor` for text,
      drawable and background alike. */
  function DefaultCounterAlpha(alphaFactor: real): (r: real)
    ensures 0.0 <= alphaFactor <= 1.0 ==> 0.5 <= r <= 1.0
    ensures alphaFactor == 1.0 ==> r == 1.0
    ensures alphaFactor == 0.0 ==> r == 0.5
  {
    0.5 + 0.5 * alphaFactor
  }

  /** A more prominent tab never gets a fainter counter. */
  lemma DefaultCounterAlphaMonotone(a: real, b: real)
    requires a <= b
    ensures DefaultCounterAlpha(a) <= DefaultCounterAlpha(b)
  {
  }

  /** `onInterceptTouchEvent`: the strip takes the gesture from its tabs while
      the disabled animation is anywhere but at rest. */
  function InterceptsTouch(disabledFactor: real): bool
  {
    disabledFactor != 0.0
  }

  /** The strip's own `onTouchEvent`: swallowed while touch is disabled or
      the disabled animation runs, otherwise whatever the platform answers. */
  function ConsumesTouch(disabled: bool, disabledFactor: real, platformConsumes: bool): bool
  {
    disabled || disabledFactor != 0.0 || platformConsumes
  }

  /** The two touch gates agree: a gesture the strip intercepts from its tabs
      is also consumed by the strip itself, disabling consumes every gesture
      without intercepting any unless the animation runs, and an enabled strip
      at rest neither intercepts nor overrides the platform: its tabs get the
      gesture. */
  lemma TouchGating(disabled: bool, disabledFactor: real, platformConsumes: bool)
    ensures InterceptsTouch(disabledFactor) ==> ConsumesTouch(disabled, disabledFactor, platformConsumes)
    ensures disabled ==> ConsumesTouch(disabled, disabledFactor, platformConsumes)
    ensures disabledFactor == 0.0 ==> !InterceptsTouch(disabledFactor)
    ensures !disabled && !InterceptsTouch(disabledFactor) ==>
      ConsumesTouch(disabled, disabledFactor, platformConsumes) == platformConsumes
  {
  }
}
