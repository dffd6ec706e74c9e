/** The strip's integer geometry: the fill-mode slot width
    (`calculateCommonItemWidth`), where each tab's touch view goes
    (`BackgroundView.onMeasure`), and the selection indicator's left edge and
    width for a fractional selection position (`recalculateSelection`). */
module Geometry {
  import opened Util

  /** Sum of a list of widths. */
  function Sum(ws: seq<int>): int
  {
    if ws == [] then 0 else ws[0] + Sum(ws[1..])
  }

  lemma {:induction false} SumAppend(a: seq<int>, b: seq<int>)
    ensures Sum(a + b) == Sum(a) + Sum(b)
  {
    if a == [] {
      assert a + b == b;
    } else {
      assert (a + b)[1..] == a[1..] + b;
      SumAppend(a[1..], b);
    }
  }

  /** Extending a prefix by one element adds that element. */
  lemma PrefixStep(ws: seq<int>, k: int)
    requires 0 <= k < |ws|
    ensures Sum(ws[..k + 1]) == Sum(ws[..k]) + ws[k]
  {
    assert ws[..k + 1] == ws[..k] + [ws[k]];
    SumAppend(ws[..k], [ws[k]]);
  }

  /** Prefix sums of non-negative widths grow with the prefix. */
  lemma {:induction false} PrefixMonotone(ws: seq<int>, j: int, k: int)
    requires 0 <= j <= k <= |ws|
    requires forall i :: 0 <= i < |ws| ==> ws[i] >= 0
    ensures Sum(ws[..j]) <= Sum(ws[..k])
  {
    if j < k {
      PrefixMonotone(ws, j, k - 1);
      PrefixStep(ws, k - 1);
    }
  }

  /** `calculateCommonItemWidth(parentWidth)` for `n` tabs: the smaller of
      the even split and the mean tab width, snapped back to the even split
      when the leftover is under half a slot, and otherwise, with
      `fitsParentWidth`, allowed to double up to the even split. */
  function CommonItemWidth(parentWidth: int, n: int, maxItemWidth: int, fitsParentWidth: bool): int
    requires n > 0
  {
    var even := JavaDiv(parentWidth, n);
    var itemWidth := Min(even, maxItemWidth);
    if parentWidth - itemWidth * n < JavaDiv(itemWidth, 2) then even
    else if fitsParentWidth then Max(itemWidth, Min(itemWidth * 2, even))
    else itemWidth
  }

  /** For a non-negative parent width and mean width the slot lies between
      the clamped width and the even split, so `n` slots never exceed the
      parent; without `fitsParentWidth` and with at least half a slot left
      over, the slot is exactly the clamped width. */
  lemma CommonItemWidthBounds(parentWidth: int, n: int, maxItemWidth: int, fits: bool)
    requires n > 0 && parentWidth >= 0 && maxItemWidth >= 0
    ensures var r := CommonItemWidth(parentWidth, n, maxItemWidth, fits);
      var lo := Min(parentWidth / n, maxItemWidth);
      && lo <= r <= parentWidth / n
      && 0 <= r
      && n * r <= parentWidth
      && (!fits && parentWidth - lo * n >= lo / 2 ==> r == lo)
      && (parentWidth - lo * n < lo / 2 ==> r == parentWidth / n)
  {
    var even := parentWidth / n;
    var lo := Min(even, maxItemWidth);
    assert JavaDiv(parentWidth, n) == even;
    DivBound(parentWidth, n);
    assert JavaDiv(lo, 2) == lo / 2;
    var r := CommonItemWidth(parentWidth, n, maxItemWidth, fits);
    if parentWidth - lo * n < lo / 2 {
      assert r == even;
    } else if fits {
      assert r == Max(lo, Min(lo * 2, even));
    } else {
      assert r == lo;
    }
    MulMonotone(r, even, n);
  }

  lemma DivBound(a: int, n: int)
    requires a >= 0 && n > 0
    ensures 0 <= a / n && n * (a / n) <= a
  {
  }

  lemma MulMonotone(a: int, b: int, n: int)
    requires 0 <= a <= b && n >= 0
    ensures n * a <= n * b
  {
  }

  /** The fill-mode sizing example: three tabs of widths 40, 60 and 50 with a
      text padding of 19 have a mean padded width of 88; in a 300-wide
      strip the leftover 36 is under half of 88, so the slot snaps to the
      even split 100. A mean of 72 would leave 84, not under half a slot,
      and the slot would stay 72. */
  lemma FillModeExample()
    ensures (40 + 60 + 50 + 19 * 6) / 3 == 88
    ensures CommonItemWidth(300, 3, 88, false) == 100
    ensures CommonItemWidth(300, 3, 72, false) == 72
  {
  }

  /** A touch view's horizontal translation and width. */
  datatype Placement = Placement(left: int, width: int)

  /** `BackgroundView.onMeasure` for the view whose index field is `index`:
      in wrap mode the prefix sum of the padded tab widths (mirrored against
      the measured width for right-to-left), in fill mode `slot × index`.
      `None` when wrap mode reads a tab that is not there (the list access
      throws). */
  function ViewPlacement(paddedWidths: seq<int>, index: int, wrapContent: bool, rtl: bool,
                         specWidth: int, slot: int): (r: Option<Placement>)
    ensures !wrapContent ==> r == Some(Placement(slot * index, slot))
    ensures wrapContent ==> (r.Some? <==> 0 <= index < |paddedWidths|)
  {
    if wrapContent then
      if 0 <= index < |paddedWidths| then
        var left := Sum(paddedWidths[..index]);
        var w := paddedWidths[index];
        Some(Placement(if rtl then specWidth - left - w else left, w))
      else None
    else Some(Placement(slot * index, slot))
  }

  /** In wrap mode neighbouring views touch without gap or overlap: left to
      right each starts where the previous one ends, right to left each ends
      where the previous one starts. */
  lemma WrapViewsAbut(paddedWidths: seq<int>, i: int, rtl: bool, specWidth: int, slot: int)
    requires 0 <= i && i + 1 < |paddedWidths|
    ensures var a := ViewPlacement(paddedWidths, i, true, rtl, specWidth, slot).value;
      var b := ViewPlacement(paddedWidths, i + 1, true, rtl, specWidth, slot).value;
      if rtl then b.left + b.width == a.left else b.left == a.left + a.width
  {
    PrefixStep(paddedWidths, i);
  }

  /** In fill mode views tile the strip: each starts where the previous one
      ends, and with `n` slots from `CommonItemWidth` the last one ends
      inside the parent. */
  lemma FillViewsTile(paddedWidths: seq<int>, i: int, n: int, parentWidth: int, maxItemWidth: int, fits: bool)
    requires n > 0 && parentWidth >= 0 && maxItemWidth >= 0 && 0 <= i < n
    ensures var slot := CommonItemWidth(parentWidth, n, maxItemWidth, fits);
      var a := ViewPlacement(paddedWidths, i, false, false, parentWidth, slot).value;
      var b := ViewPlacement(paddedWidths, i + 1, false, false, parentWidth, slot).value;
      && b.left == a.left + a.width
      && 0 <= a.left && a.left + a.width <= parentWidth
  {
    var slot := CommonItemWidth(parentWidth, n, maxItemWidth, fits);
    CommonItemWidthBounds(parentWidth, n, maxItemWidth, fits);
    assert slot * (i + 1) <= slot * n by { MulMonotone(i + 1, n, slot); }
  }

  /** The indicator rectangle's left edge and width. */
  datatype Rect = Rect(left: int, width: int)

  /** Indicator geometry as `recalculateSelection` computes it, from the
      padded actual widths of the tabs, the fill-mode slot and the selection
      position `f`. Fill mode: `(trunc(f × slot), slot)`. Wrap mode: the
      tab at `trunc(f)` (clamped when `f` is integral), interpolated toward
      the next one by the fractional part, and the prefix sum of the tabs
      before it. `None` exactly where the source reads past the list. */
  function SelectionGeometry(paddedWidths: seq<int>, slot: int, wrapContent: bool, f: real): Option<Rect>
    requires |paddedWidths| > 0
  {
    if wrapContent then WrapGeometry(paddedWidths, f) else Some(FillGeometry(slot, f))
  }

  /** `(int) (f * slot)` and the slot width. */
  function FillGeometry(slot: int, f: real): Rect {
    Rect(Trunc(Mul(f, slot as real)), slot)
  }

  function WrapGeometry(paddedWidths: seq<int>, f: real): Option<Rect>
    requires |paddedWidths| > 0
  {
    var n := |paddedWidths|;
    var k := Trunc(f);
    var remain := f - k as real;
    if remain == 0.0 then
      if k > n then None
      else
        var idx := Max(0, Min(n - 1, k));
        Some(Rect(if k <= 0 then 0 else Sum(paddedWidths[..k]), paddedWidths[idx]))
    else if k < 0 || k + 1 >= n then None
    else
      var fromWidth := paddedWidths[k];
      var toWidth := paddedWidths[k + 1];
      Some(Rect(Sum(paddedWidths[..k]) + Part(fromWidth, remain),
                fromWidth + Part(toWidth - fromWidth, remain)))
  }

  /** `(int) ((float) d * t)`: the truncated fraction `t` of a width `d`. */
  function Part(d: int, t: real): (r: int)
    ensures 0.0 < t < 1.0 && d >= 0 ==> 0 <= r <= d
    ensures 0.0 < t < 1.0 && d < 0 ==> d <= r <= 0
  {
    if 0.0 < t < 1.0 then FractionBounds(d, t); Trunc(Mul(d as real, t))
    else Trunc(Mul(d as real, t))
  }

  /** In fill mode the indicator is one slot wide and its left edge moves
      monotonically with the selection position, landing on `k × slot` at
      every integral position `k`. */
  lemma FillSelectionTracks(paddedWidths: seq<int>, slot: int, f: real, g: real)
    requires |paddedWidths| > 0 && slot >= 0 && f <= g
    ensures SelectionGeometry(paddedWidths, slot, false, f).value.width == slot
    ensures SelectionGeometry(paddedWidths, slot, false, f).value.left
         <= SelectionGeometry(paddedWidths, slot, false, g).value.left
  {
    assert SelectionGeometry(paddedWidths, slot, false, f).value == FillGeometry(slot, f);
    assert SelectionGeometry(paddedWidths, slot, false, g).value == FillGeometry(slot, g);
    FillLeftMonotone(slot, f, g);
  }

  /** The fill-mode left edge only grows with the selection position. */
  lemma FillLeftMonotone(slot: int, f: real, g: real)
    requires slot >= 0 && f <= g
    ensures FillGeometry(slot, f).left <= FillGeometry(slot, g).left
  {
    ScaleMonotone(f, g, slot as real);
    TruncMonotone(Mul(f, slot as real), Mul(g, slot as real));
  }

  /** At an integral position `k` the fill-mode indicator sits exactly on
      slot `k`. */
  lemma FillSelectionAtTab(paddedWidths: seq<int>, slot: int, k: int)
    requires |paddedWidths| > 0
    ensures SelectionGeometry(paddedWidths, slot, false, k as real) == Some(Rect(k * slot, slot))
  {
    MulOfInts(k, slot);
    TruncOfInt(k * slot);
    assert FillGeometry(slot, k as real) == Rect(k * slot, slot);
  }

  /** In wrap mode at an integral position `k` of the list the indicator
      covers exactly tab `k`: it starts at the sum of the padded widths
      before it and is as wide as tab `k`. */
  lemma WrapSelectionAtTab(paddedWidths: seq<int>, slot: int, k: int)
    requires 0 <= k < |paddedWidths|
    ensures SelectionGeometry(paddedWidths, slot, true, k as real)
         == Some(Rect(Sum(paddedWidths[..k]), paddedWidths[k]))
  {
    TruncOfInt(k);
    assert k == 0 ==> paddedWidths[..k] == [];
  }

  /** With non-negative widths the wrap-mode indicator at integral
      positions moves right as the position grows. */
  lemma WrapSelectionOrdered(paddedWidths: seq<int>, slot: int, j: int, k: int)
    requires 0 <= j <= k < |paddedWidths|
    requires forall i :: 0 <= i < |paddedWidths| ==> paddedWidths[i] >= 0
    ensures SelectionGeometry(paddedWidths, slot, true, j as real).value.left
         <= SelectionGeometry(paddedWidths, slot, true, k as real).value.left
  {
    WrapSelectionAtTab(paddedWidths, slot, j);
    WrapSelectionAtTab(paddedWidths, slot, k);
    PrefixMonotone(paddedWidths, j, k);
  }

  /** Between tabs `k` and `k + 1` (non-negative widths) the wrap-mode
      indicator stays between tab `k`'s left edge and tab `k + 1`'s left
      edge, and its width between the two tabs' widths. */
  lemma WrapSelectionInterpolates(paddedWidths: seq<int>, slot: int, f: real, k: int)
    requires 0 <= k && k + 1 < |paddedWidths|
    requires k as real < f < (k + 1) as real
    requires forall i :: 0 <= i < |paddedWidths| ==> paddedWidths[i] >= 0
    ensures SelectionGeometry(paddedWidths, slot, true, f).Some?
    ensures var r := SelectionGeometry(paddedWidths, slot, true, f).value;
      && Sum(paddedWidths[..k]) <= r.left <= Sum(paddedWidths[..k + 1])
      && Min(paddedWidths[k], paddedWidths[k + 1]) <= r.width <= Max(paddedWidths[k], paddedWidths[k + 1])
  {
    TruncBetween(f, k);
    var remain := f - k as real;
    var a := paddedWidths[k];
    var b := paddedWidths[k + 1];
    assert WrapGeometry(paddedWidths, f) ==
      Some(Rect(Sum(paddedWidths[..k]) + Part(a, remain), a + Part(b - a, remain)));
    PrefixStep(paddedWidths, k);
  }

  lemma TruncBetween(f: real, k: int)
    requires 0 <= k && k as real < f < (k + 1) as real
    ensures Trunc(f) == k && 0.0 < f - k as real < 1.0
  {
  }

  /** Truncating a fraction of a width stays between zero and the width. */
  lemma FractionBounds(d: int, t: real)
    requires 0.0 < t < 1.0
    ensures d >= 0 ==> 0 <= Trunc(Mul(d as real, t)) <= d
    ensures d < 0 ==> d <= Trunc(Mul(d as real, t)) <= 0
  {
    var x := d as real;
    if d >= 0 {
      MulFraction(x, t);
      TruncMonotone(Mul(x, t), x);
      TruncOfInt(d);
    } else {
      MulFraction(-x, t);
      TruncMonotone(Mul(-x, t), -x);
      TruncOfInt(-d);
      MulNegate(x, t);
      TruncNegate(Mul(-x, t));
    }
  }

  lemma TruncNegate(x: real)
    ensures Trunc(-x) == -Trunc(x)
  {
  }

  /** Inside the valid range `[0, n - 1]` the wrap-mode computation never
      reads past the list. */
  lemma WrapSelectionDefined(paddedWidths: seq<int>, slot: int, f: real)
    requires |paddedWidths| > 0
    requires 0.0 <= f <= (|paddedWidths| - 1) as real
    ensures SelectionGeometry(paddedWidths, slot, true, f).Some?
  {
    var k := Trunc(f);
    assert k as real <= f;
    if f - k as real != 0.0 {
      assert f < (k + 1) as real;
    }
  }

  /** `totalFactor`: the selection position as a fraction of the last index,
      0 for a strip of at most one tab. */
  function TotalFactor(f: real, n: int): (t: real)
    ensures n <= 1 ==> t == 0.0
    ensures n > 1 && 0.0 <= f <= (n - 1) as real ==> 0.0 <= t <= 1.0
    ensures n > 1 ==> Mul(t, (n - 1) as real) == f
  {
    if n > 1 then f / (n - 1) as real else 0.0
  }

  /** Whether `recalculateSelection` wants to notify, from its `set` flag (here `update`) and
      the explicit transition `(fromIndex, toIndex)` (`-1` for none): a live
      call notifies with no transition or an adjacent one, the settle call of
      `setFromTo` only for a jump over more than one tab. */
  function CallListener(update: bool, fromIndex: int, toIndex: int): (r: bool)
    ensures update && fromIndex == -1 && toIndex == -1 ==> r
    ensures update && fromIndex != -1 && toIndex != -1 ==> (r <==> AbsInt(toIndex - fromIndex) == 1)
    ensures !update ==> (r <==> fromIndex != -1 && toIndex != -1 && AbsInt(toIndex - fromIndex) > 1)
    ensures (fromIndex == -1) != (toIndex == -1) ==> !r
  {
    if update then
      (fromIndex == -1 && toIndex == -1)
      || (fromIndex != -1 && toIndex != -1 && AbsInt(toIndex - fromIndex) == 1)
    else fromIndex != -1 && toIndex != -1 && AbsInt(toIndex - fromIndex) > 1
  }

  /** For a real transition exactly one of the two kinds of call notifies:
      the live calls of an adjacent step, or the settle call of a longer jump. */
  lemma LiveOrSettle(fromIndex: int, toIndex: int)
    requires fromIndex != -1 && toIndex != -1 && fromIndex != toIndex
    ensures CallListener(true, fromIndex, toIndex) != CallListener(false, fromIndex, toIndex)
  {
  }
}
