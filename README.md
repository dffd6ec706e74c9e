# ViewPagerTopView tab strip, modelled in Dafny

`ViewPagerTopView` is the tab strip above a view pager. It keeps a list of
tabs (`Item`). Each tab shows a label, an icon and/or a counter badge. The strip:

- sizes the tabs, either in a shared fill-mode slot or at their own width (wrap mode),
- ellipsizes labels that do not fit,
- places one touch target (`BackgroundView`) per tab,
- draws an underline indicator that follows a fractional selection
  position and reports it to a selection listener,
- runs a vertical "slide-off" gesture on each touch target.

The model has seven modules:

- `Util` covers the parts of Java arithmetic the strip relies on:
  - `(int)` of a float truncates toward zero (`Trunc`);
  - int `/` rounds toward zero (`JavaDiv`);
  - float products go through `Mul`.
- `Items` holds a tab as a value:
  - the width priority of `calculateWidth` and the `equals` relation;
  - the per-tab caches the strip updates in place (`Slot`: width, actual width, text layout, translation);
  - `trimString` and `untrimString`;
  - the padded width sums.
- `Geometry` holds the integer geometry:
  - `calculateCommonItemWidth`;
  - touch-view placement from `BackgroundView.onMeasure`;
  - the indicator's left edge and width from `recalculateSelection`;
  - the listener gate, and `totalFactor`.
- `Render` holds the arithmetic of `draw`:
  - the per-tab highlight factor, the left-to-right / right-to-left x cursor and the mirrored indicator;
  - the counter alpha factor and the default alpha provider;
  - the strip's touch gating.
- `Gesture` covers `BackgroundView`:
  - the pure transition function `Step` of the slide-off state machine;
  - its runs over event streams;
  - the class `BackgroundView`, whose `OnTouchEvent` updates its fields in place and logs the callbacks.
- `Strip` holds the strip's whole state as a datatype (`StripState`) and every operation as a transition
  `Outcome(state, failed)`. `failed` means the Java code throws (for example a list index out of
  range). The properties of the widget are proved here as lemmas.
- `TopView` holds the class `ViewPagerTopView`, whose fields the methods update in place, with loops where
  the Java code loops. Each method is proved to leave the object exactly in the state the matching `Strip`
  transition gives (`View() == Strip.Op(old(View()), ...).state`). The `Strip` lemmas therefore hold for the
  object as well.

The remaining external inputs are modelled as follows:

- Text measurement, counter widths, the ellipsized layout width and the `Screen.dp` constants are the
  fields of `Items.Metrics`.
- The right-to-left flag, the layout parameters (wrap or fill), the touch slop, the view height and the
  listener answers are parameters.

Points where the code behaves differently from what a reader might expect:

- The fill-mode slots do not always add up to the viewport width: `n × slot <= width`
  (`Geometry.CommonItemWidthBounds`).
- `removeItemAt` does not re-index the touch targets. The later views keep
  their old indices (`Strip.RemoveItemAtLeavesStaleIndices`).
- `removeItemAt` does not shift the selection on every removal at or before it. It pulls the selection back
  only when its integer part reaches the new size.
- `layout` ellipsizes a tab that is *narrower* than the available text width (`width < availTextWidth`)
  and shows wider ones in full (`Strip.LayoutEffect`).
- In fill mode, three tabs of widths 40, 60 and 50 with a text padding of 19 (padded widths 78, 98 and 88,
  mean 88) in a 300-wide strip get the even split 100, since the leftover 36 is under half the mean. Without `fitsParentWidth`, a mean of 72 would keep the slot
  at 72 (`Geometry.FillModeExample`).
- `layout` on a set but empty list records the width and then divides by zero in
  `calculateCommonItemWidth`. The model records that as a failure.

## Model

| member | source | states |
|---|---|---|
| Util.Trunc | app/src/main/java/org/thunderdog/challegram/navigation/ViewPagerTopView.java:562-579 | `(int)` of a float drops the fraction toward zero: the result is within one of the input on the side of zero, with the input's sign |
| Util.JavaDiv | app/src/main/java/org/thunderdog/challegram/navigation/ViewPagerTopView.java:513-515 | int division rounds toward zero: for a positive divisor the remainder is smaller than the divisor and has the dividend's sign; for a non-negative dividend it is the Euclidean quotient |
| Util.TruncMonotone | app/src/main/java/org/thunderdog/challegram/navigation/ViewPagerTopView.java:579 | a larger float never casts to a smaller int |
| Items.CalculateWidth | app/src/main/java/org/thunderdog/challegram/navigation/ViewPagerTopView.java:147-170 | a static width wins over all content and is the width plus `addWidth`; no text, icon or counter gives just `addWidth`; a label gives its measured width plus the icon gap; a bare icon gives `dp(24)`; with a counter, a label gives `trunc(text + scaled counter)` plus the gap, an image `trunc(counter)` plus the image size, an icon `dp(24) + trunc(scaled counter)`, a bare counter `trunc(counter) + dp(6)`, each plus `addWidth` |
| Items.StaticWidthOverridesContent | app/src/main/java/org/thunderdog/challegram/navigation/ViewPagerTopView.java:149-150 | two tabs with the same static width and `addWidth` are equally wide whatever they show |
| Items.AddWidthShifts | app/src/main/java/org/thunderdog/challegram/navigation/ViewPagerTopView.java:168 | raising `addWidth` by d raises the computed width by exactly d |
| Items.EqualsCharacterized | app/src/main/java/org/thunderdog/challegram/navigation/ViewPagerTopView.java:133-136 | `equals` holds iff the icon ids agree, the texts agree with null and empty identified, and the counter is the same object |
| Items.EqualsIsEquivalence | app/src/main/java/org/thunderdog/challegram/navigation/ViewPagerTopView.java:133-136 | `equals` is reflexive, symmetric and transitive |
| Items.NewSlot | app/src/main/java/org/thunderdog/challegram/navigation/ViewPagerTopView.java:138-170 | a fresh tab caches the width from `calculateWidth`, with no layout, actual width 0 and no translation |
| Items.Remeasure | app/src/main/java/org/thunderdog/challegram/navigation/ViewPagerTopView.java:491-494 | measuring a tab already in the strip again changes only its cached width |
| Items.Trim | app/src/main/java/org/thunderdog/challegram/navigation/ViewPagerTopView.java:179-188 | a label gets an ellipsized layout for the available width and that layout's width as its actual width; a tab without a label gets no layout and actual width = width; content and width are kept |
| Items.Untrim | app/src/main/java/org/thunderdog/challegram/navigation/ViewPagerTopView.java:190-197 | actual width becomes the full width; a label gets its full-text layout, a tab without one none |
| Items.Fit | app/src/main/java/org/thunderdog/challegram/navigation/ViewPagerTopView.java:434-439 | the trimming decision never changes which item a tab holds, its measured width or its translation |
| Items.FitCases | app/src/main/java/org/thunderdog/challegram/navigation/ViewPagerTopView.java:434-439 | a tab is ellipsized iff fill mode, width below the available text width and a label; otherwise, or without a label, actual width = width |
| Items.SlotSumSplit | app/src/main/java/org/thunderdog/challegram/navigation/ViewPagerTopView.java:499-500 | the padded width sum is `getTotalWidth` plus `2 × padding` per tab, the wrap-mode measure width |
| Items.SlotSumInsert | app/src/main/java/org/thunderdog/challegram/navigation/ViewPagerTopView.java:423-425 | inserting a tab anywhere adds exactly its padded width to `totalWidth` |
| Items.SlotSumReplace | app/src/main/java/org/thunderdog/challegram/navigation/ViewPagerTopView.java:336-341 | replacing a tab swaps its width for the new tab's in `totalWidth` |
| Items.SlotSumPush | app/src/main/java/org/thunderdog/challegram/navigation/ViewPagerTopView.java:382-385 | appending a tab adds its padded width, the step of the `setItems` loop |
| Geometry.CommonItemWidthBounds | app/src/main/java/org/thunderdog/challegram/navigation/ViewPagerTopView.java:512-520 | for n > 0, W >= 0 and a non-negative mean: `min(W/n, max) <= slot <= W/n`, so `n × slot <= W`; without `fitsParentWidth`, a leftover of at least half a slot keeps `min(W/n, max)`; a smaller leftover snaps to `W/n` |
| Geometry.FillModeExample | app/src/main/java/org/thunderdog/challegram/navigation/ViewPagerTopView.java:512-520 | widths 40, 60, 50 with padding 19 have mean 88 and a 300-wide strip snaps to slot 100; mean 72 would stay at 72 |
| Geometry.ViewPlacement | app/src/main/java/org/thunderdog/challegram/navigation/ViewPagerTopView.java:1016-1033 | fill mode places view i at `slot × i` with width slot; wrap mode gives a placement exactly when the view's index is a tab of the list |
| Geometry.WrapViewsAbut | app/src/main/java/org/thunderdog/challegram/navigation/ViewPagerTopView.java:1017-1027 | in wrap mode neighbouring views touch: left to right each starts where the previous ends, right to left each ends where the previous starts |
| Geometry.FillViewsTile | app/src/main/java/org/thunderdog/challegram/navigation/ViewPagerTopView.java:1028-1031 | in fill mode view i + 1 starts where view i ends, and every view lies inside the parent width |
| Geometry.Part | app/src/main/java/org/thunderdog/challegram/navigation/ViewPagerTopView.java:569 | the truncated fraction t in (0, 1) of a width lies between 0 and that width, for negative widths too |
| Geometry.FractionBounds | app/src/main/java/org/thunderdog/challegram/navigation/ViewPagerTopView.java:569 | the truncation of `d × t` for t in (0, 1) lies between 0 and d |
| Geometry.FillSelectionTracks | app/src/main/java/org/thunderdog/challegram/navigation/ViewPagerTopView.java:579-580 | in fill mode the indicator is one slot wide and its left edge never moves left as the position grows |
| Geometry.FillLeftMonotone | app/src/main/java/org/thunderdog/challegram/navigation/ViewPagerTopView.java:579 | `trunc(f × slot)` is monotone in f for a non-negative slot |
| Geometry.FillSelectionAtTab | app/src/main/java/org/thunderdog/challegram/navigation/ViewPagerTopView.java:579-580 | at integral position k the fill-mode indicator is exactly `(k × slot, slot)` |
| Geometry.WrapSelectionAtTab | app/src/main/java/org/thunderdog/challegram/navigation/ViewPagerTopView.java:561-577 | at integral position k of the list the wrap-mode indicator starts at the padded actual widths before tab k and is as wide as tab k |
| Geometry.WrapSelectionOrdered | app/src/main/java/org/thunderdog/challegram/navigation/ViewPagerTopView.java:572-574 | with non-negative widths the wrap-mode indicator at integral positions moves right as the position grows |
| Geometry.WrapSelectionInterpolates | app/src/main/java/org/thunderdog/challegram/navigation/ViewPagerTopView.java:566-577 | strictly between tabs k and k + 1 the indicator is defined, its left edge between the two tabs' left edges and its width between their widths |
| Geometry.WrapSelectionDefined | app/src/main/java/org/thunderdog/challegram/navigation/ViewPagerTopView.java:561-577 | for positions in `[0, n - 1]` the wrap-mode computation never reads past the list |
| Geometry.TotalFactor | app/src/main/java/org/thunderdog/challegram/navigation/ViewPagerTopView.java:593 | 0 for at most one tab; otherwise `totalFactor × (n - 1) = f`, in [0, 1] for positions in range |
| Geometry.CallListener | app/src/main/java/org/thunderdog/challegram/navigation/ViewPagerTopView.java:583-592 | a live call notifies with no transition or an adjacent one; the settle call notifies only for a jump over more than one tab; a half-set transition never notifies |
| Geometry.LiveOrSettle | app/src/main/java/org/thunderdog/challegram/navigation/ViewPagerTopView.java:589-591 | for a real transition exactly one of the live and settle calls is allowed to notify |
| Render.HighlightWithoutTransition | app/src/main/java/org/thunderdog/challegram/navigation/ViewPagerTopView.java:755-762 | without a transition the highlight lies in [0, 1], is 1 iff the tab is the position, positive iff within distance one, and falls off linearly |
| Render.HighlightDuringTransition | app/src/main/java/org/thunderdog/challegram/navigation/ViewPagerTopView.java:746-754 | during a transition, with the position between its ends, the two ends' highlights lie in [0, 1] and add up to 1; the destination is fully lit on arrival and the origin at the start; other tabs are dark |
| Render.DrawXMirrors | app/src/main/java/org/thunderdog/challegram/navigation/ViewPagerTopView.java:734-838 | the right-to-left cursor is the left-to-right one mirrored against `totalWidth`; consecutive tabs are drawn edge to edge in both directions |
| Render.IndicatorCoversTab | app/src/main/java/org/thunderdog/challegram/navigation/ViewPagerTopView.java:727-728 | in wrap mode the indicator drawn for integral position k covers exactly the cell drawn for tab k, in either direction |
| Render.CounterAlphaFactor | app/src/main/java/org/thunderdog/challegram/navigation/ViewPagerTopView.java:775-782 | the counter alpha factor lies in [0, 1] and is at least the closeness to the position; with a hidden first tab it is 1 for tab 1 below position 1; otherwise it is exactly the closeness |
| Render.DefaultCounterAlpha | app/src/main/java/org/thunderdog/challegram/navigation/ViewPagerTopView.java:873-882 | the default alpha lies in [0.5, 1] for a factor in [0, 1], and is 1 at factor 1 and 0.5 at 0 |
| Render.DefaultCounterAlphaMonotone | app/src/main/java/org/thunderdog/challegram/navigation/ViewPagerTopView.java:873-875 | a more prominent tab never gets a fainter counter |
| Render.TouchGating | app/src/main/java/org/thunderdog/challegram/navigation/ViewPagerTopView.java:685-692 | whatever the strip intercepts it also swallows; everything is swallowed while disabled; at rest (factor 0) nothing is intercepted; otherwise, when not disabled and not intercepting, the platform's answer stands |
| Gesture.StepConsistent | app/src/main/java/org/thunderdog/challegram/navigation/ViewPagerTopView.java:937-1001 | every event keeps "inside slide-off implies the parent is locked" |
| Gesture.LocksOnlyAfterSlopAndPrepare | app/src/main/java/org/thunderdog/challegram/navigation/ViewPagerTopView.java:947-961 | the parent gets locked only by a move beyond the slop that the listener agreed to, and that event makes exactly the prepare callback |
| Gesture.UnlockedIsQuiet | app/src/main/java/org/thunderdog/challegram/navigation/ViewPagerTopView.java:947-961 | while unlocked no start, movement or finish callback fires, and the gesture stays outside slide-off |
| Gesture.LockedMoveToggles | app/src/main/java/org/thunderdog/challegram/navigation/ViewPagerTopView.java:962-976 | on a locked move start fires iff slide-off is entered, finish(false) iff it is left, movement iff the move ends inside; the lock and press position are kept |
| Gesture.ReleaseAndCancelEnd | app/src/main/java/org/thunderdog/challegram/navigation/ViewPagerTopView.java:979-998 | up emits finish(true) and cancel emits finish(false), each only when inside slide-off; afterwards the gesture is outside and unlocked |
| Gesture.StepBalanced | app/src/main/java/org/thunderdog/challegram/navigation/ViewPagerTopView.java:962-998 | one event changes the starts-minus-finishes count by exactly the change of the inside-slide-off flag |
| Gesture.RunBalanced | app/src/main/java/org/thunderdog/challegram/navigation/ViewPagerTopView.java:937-1001 | over any event stream starts and finishes balance, except one left open when the stream ends inside slide-off; consistency is kept |
| Gesture.SlideOffScenario | app/src/main/java/org/thunderdog/challegram/navigation/ViewPagerTopView.java:937-1001 | press, a drag past the slop, two moves past the tab height and a release give exactly prepare, start, movement, movement, finish(true) |
| Gesture.BackgroundView.constructor | app/src/main/java/org/thunderdog/challegram/navigation/ViewPagerTopView.java:925-934 | a new touch view has its index, no press recorded, is outside slide-off with no lock, and has made no callbacks |
| Gesture.BackgroundView.SetIndex | app/src/main/java/org/thunderdog/challegram/navigation/ViewPagerTopView.java:1011-1013 | stores the index |
| Gesture.BackgroundView.OnTouchEvent | app/src/main/java/org/thunderdog/challegram/navigation/ViewPagerTopView.java:937-1001 | the fields become `Step`'s new state, the callback log grows by `Step`'s callbacks, the answer is true with a listener and otherwise the alpha-gated platform answer; consistency is kept |
| Strip.Initial | app/src/main/java/org/thunderdog/challegram/navigation/ViewPagerTopView.java:209-215 | a new strip keeps the invariant, has its width bookkeeping in sync, has no list, no tabs, no views and has reported nothing |
| Strip.SetItems | app/src/main/java/org/thunderdog/challegram/navigation/ViewPagerTopView.java:360-390 | keeps the strip invariant (one touch view per tab, no tabs before a list is set, a well-formed transition); its effect is stated by `Strip.SetItemsRebuilds`, `Strip.SetItemsEqualListIsNoop` |
| Strip.Rebuild | app/src/main/java/org/thunderdog/challegram/navigation/ViewPagerTopView.java:374-389 | keeps the strip invariant; its effect is stated by `Strip.SetItemsRebuilds` |
| Strip.SetItemAt | app/src/main/java/org/thunderdog/challegram/navigation/ViewPagerTopView.java:332-347 | keeps the strip invariant; its effect is stated by `Strip.SetItemAtEffect`, `Strip.SetItemAtOutOfRange`, `Strip.SetItemAtKeepsWidths` |
| Strip.ReplaceSlot | app/src/main/java/org/thunderdog/challegram/navigation/ViewPagerTopView.java:333-346 | the slot lands at its index, the other tabs are kept, and a width sum in sync stays in sync |
| Strip.RequestItemLayoutAt | app/src/main/java/org/thunderdog/challegram/navigation/ViewPagerTopView.java:491-495 | keeps the strip invariant; its effect is stated by `Strip.RequestItemLayoutAtEffect` |
| Strip.SetItemTranslationX | app/src/main/java/org/thunderdog/challegram/navigation/ViewPagerTopView.java:349-354 | keeps the strip invariant; its effect is stated by `Strip.SetItemTranslationXEffect` |
| Strip.AddItemAtIndex | app/src/main/java/org/thunderdog/challegram/navigation/ViewPagerTopView.java:408-442 | keeps the strip invariant; its effect is stated by `Strip.AddItemAtIndexEffect`, `Strip.AddItemAtIndexOutOfRange` |
| Strip.InsertItem | app/src/main/java/org/thunderdog/challegram/navigation/ViewPagerTopView.java:412-441 | keeps the strip invariant; its effect is stated by `Strip.InsertItemEffect` |
| Strip.RemoveItemAt | app/src/main/java/org/thunderdog/challegram/navigation/ViewPagerTopView.java:450-464 | keeps the strip invariant; its effect is stated by `Strip.RemoveItemAtEffect` |
| Strip.RemoveLastItem | app/src/main/java/org/thunderdog/challegram/navigation/ViewPagerTopView.java:444-448 | keeps the strip invariant; its effect is stated by `Strip.RemoveLastItemEffect`, `Strip.RemoveLastItemOnEmpty` |
| Strip.Recalc | app/src/main/java/org/thunderdog/challegram/navigation/ViewPagerTopView.java:556-597 | changes nothing but the indicator and reporting fields, and keeps the strip invariant; its effect is stated by `Strip.RecalcStoresGeometry`, `Strip.RecalcReporting` |
| Strip.Report | app/src/main/java/org/thunderdog/challegram/navigation/ViewPagerTopView.java:583-596 | the notification log only grows, by at most one entry; a live call stores the new indicator, a settle call keeps the drawn one |
| Strip.Layout | app/src/main/java/org/thunderdog/challegram/navigation/ViewPagerTopView.java:522-552 | keeps the strip invariant; its effect is stated by `Strip.LayoutEffect`, `Strip.LayoutNoopCases` |
| Strip.LayoutItems | app/src/main/java/org/thunderdog/challegram/navigation/ViewPagerTopView.java:527-551 | keeps the strip invariant; its effect is stated by `Strip.LayoutEffect` |
| Strip.Fitted | app/src/main/java/org/thunderdog/challegram/navigation/ViewPagerTopView.java:529-542 | keeps the strip invariant; its effect is stated by `Strip.LayoutEffect` |
| Strip.MeasureTarget | app/src/main/java/org/thunderdog/challegram/navigation/ViewPagerTopView.java:497-507 | the measure width is the padded width sum of the current tabs in wrap mode (so `totalWidth` when that is in sync) and the measured width in fill mode |
| Strip.Measure | app/src/main/java/org/thunderdog/challegram/navigation/ViewPagerTopView.java:497-507 | keeps the strip invariant; its effect is stated by `Strip.MeasureEffect` |
| Strip.FirePendingRecalc | app/src/main/java/org/thunderdog/challegram/navigation/ViewPagerTopView.java:544-548 | keeps the strip invariant; its effect is stated by `Strip.FirePendingRecalcEffect` |
| Strip.SetSelectionFactor | app/src/main/java/org/thunderdog/challegram/navigation/ViewPagerTopView.java:616-626 | keeps the strip invariant; its effect is stated by `Strip.SetSelectionFactorEffect` |
| Strip.MoveSelection | app/src/main/java/org/thunderdog/challegram/navigation/ViewPagerTopView.java:617-625 | keeps the strip invariant; its effect is stated by `Strip.MoveSelectionEffect` |
| Strip.SetFromTo | app/src/main/java/org/thunderdog/challegram/navigation/ViewPagerTopView.java:631-639 | keeps the strip invariant; its effect is stated by `Strip.SetFromToEffect`, `Strip.SetFromToSameIgnored` |
| Strip.SetItemsEqualListIsNoop | app/src/main/java/org/thunderdog/challegram/navigation/ViewPagerTopView.java:360-373 | re-pushing an index-wise `equals` list of the same length changes nothing at all |
| Strip.SetItemsRebuilds | app/src/main/java/org/thunderdog/challegram/navigation/ViewPagerTopView.java:374-389 | any other list replaces the tabs with freshly measured ones (`NewSlots`), with `totalWidth` the padded sum and `maxItemWidth` its mean (0 when empty), the strip unmeasured and views indexed 0..n-1; every other field, including the selection, the transition, the slot, the pending recompute and reporting, is kept |
| Strip.SetItemAtKeepsWidths | app/src/main/java/org/thunderdog/challegram/navigation/ViewPagerTopView.java:332-346 | replacing a tab in range keeps the width sum in sync, recomputes the mean, replaces exactly that tab and marks the strip unmeasured |
| Strip.RequestItemLayoutKeepsWidths | app/src/main/java/org/thunderdog/challegram/navigation/ViewPagerTopView.java:491-495 | re-measuring a tab in range keeps the width sum in sync |
| Strip.SetItemAtEffect | app/src/main/java/org/thunderdog/challegram/navigation/ViewPagerTopView.java:332-347 | `setItemAt` in range stores the freshly measured tab at its index, keeps the other tabs, adjusts the width sum by the width difference, sets the mean to `totalWidth / size` and resets the last laid-out width, changing no other field, in every state |
| Strip.RequestItemLayoutAtEffect | app/src/main/java/org/thunderdog/challegram/navigation/ViewPagerTopView.java:491-495 | fails iff no list is set and is ignored outside the list; in range only that tab's cached width is measured again, the other tabs and fields stay, the width sum stays in sync and the last laid-out width is reset |
| Strip.SetItemTranslationXEffect | app/src/main/java/org/thunderdog/challegram/navigation/ViewPagerTopView.java:349-354 | fails iff no list is set or the index is negative, is ignored past the end, and otherwise changes only that tab's translation, keeping the items and the width sum |
| Strip.SetItemAtOutOfRange | app/src/main/java/org/thunderdog/challegram/navigation/ViewPagerTopView.java:333-334 | `setItemAt` outside the list throws and changes nothing |
| Strip.AddItemAtIndexEffect | app/src/main/java/org/thunderdog/challegram/navigation/ViewPagerTopView.java:408-440 | in every state with a list: is `InsertItem` at the position (`-1` appends), inserts exactly the new tab there, adds its padded width to the sum, sets the mean to `totalWidth / size`, moves the selection right iff the position is at or before `trunc(selectionFactor)` and appends a view with the last index; a sum in sync stays in sync and consistently indexed views stay consistent |
| Strip.InsertItemEffect | app/src/main/java/org/thunderdog/challegram/navigation/ViewPagerTopView.java:412-431 | the inserting part, in every state with a list: the kept tabs keep their caches, the new tab is the measured one fitted against the new slot, the slot is computed from the new tab's own width, the sum grows by its padded width, the mean is `totalWidth / size`, the selection shift rule, the view appended; no other field changes |
| Strip.AddItemAtIndexOutOfRange | app/src/main/java/org/thunderdog/challegram/navigation/ViewPagerTopView.java:409-417 | a position outside `[0, size]` (other than -1) throws and changes nothing |
| Strip.RemoveItemAtEffect | app/src/main/java/org/thunderdog/challegram/navigation/ViewPagerTopView.java:450-460 | throws iff the index is outside `[0, size)` and then changes nothing; otherwise removes exactly that tab and that touch view, keeping the other tabs' caches, pulls the selection back iff its integer part reaches the new size, and changes no other field (`totalWidth` and `maxItemWidth` included) |
| Strip.RemoveItemAtDesyncsWidths | app/src/main/java/org/thunderdog/challegram/navigation/ViewPagerTopView.java:455-463 | removing a tab with a non-zero padded width leaves `totalWidth` out of step with the remaining tabs |
| Strip.RemoveItemAtLeavesStaleIndices | app/src/main/java/org/thunderdog/challegram/navigation/ViewPagerTopView.java:455-462 | after a removal each later view still reports its old index, one more than its position, so a click reports the wrong tab |
| Strip.RemoveLastItemOnEmpty | app/src/main/java/org/thunderdog/challegram/navigation/ViewPagerTopView.java:444-448 | `removeLastItem` on an empty list does nothing |
| Strip.RemoveLastItemEffect | app/src/main/java/org/thunderdog/challegram/navigation/ViewPagerTopView.java:444-448 | on a non-empty strip `removeLastItem` is `removeItemAt` of the last tab and drops exactly that tab and touch view |
| Strip.LayoutNoopCases | app/src/main/java/org/thunderdog/challegram/navigation/ViewPagerTopView.java:522-525 | `layout` does nothing for width 0 or the last measured width |
| Strip.LayoutEffect | app/src/main/java/org/thunderdog/challegram/navigation/ViewPagerTopView.java:522-552 | a real layout records the width, computes the slot, ellipsizes a tab iff fill mode, narrower than the available text width and labelled, gives every other tab actual width = width; it posts the recompute iff the strip had been laid out before, and otherwise recomputes at once with the stored position |
| Strip.LayoutIdempotent | app/src/main/java/org/thunderdog/challegram/navigation/ViewPagerTopView.java:522-529 | laying out twice for the same width is the same as once |
| Strip.DeferredRecalcCatchesUp | app/src/main/java/org/thunderdog/challegram/navigation/ViewPagerTopView.java:544-551 | a posted recompute, once run, leaves the strip as an immediate recompute after the same layout would have |
| Strip.FirePendingRecalcEffect | app/src/main/java/org/thunderdog/challegram/navigation/ViewPagerTopView.java:544-548 | the posted recompute runs the live recompute at the stored position iff one is pending, clears the flag, and running it twice does nothing more |
| Strip.MeasureEffect | app/src/main/java/org/thunderdog/challegram/navigation/ViewPagerTopView.java:497-507 | fill mode lays out at the measured width; wrap mode fails with no list and otherwise lays out, in wrap mode, at the padded width sum of the current tabs, whether `totalWidth` is in sync or not |
| Strip.RecalcStoresGeometry | app/src/main/java/org/thunderdog/challegram/navigation/ViewPagerTopView.java:578-588 | a live recompute fails exactly where the geometry reads past the list and otherwise stores the geometry; in fill mode it is `(trunc(f × slot), slot)` and never fails |
| Strip.RecalcReporting | app/src/main/java/org/thunderdog/challegram/navigation/ViewPagerTopView.java:583-596 | at most one report per recompute, and one exactly when the geometry is defined, the gate allows, a listener is set and the left, width or total factor differs from the last report; it carries the first and last tab widths and `animated = !set`; a settle call leaves the drawn indicator alone; an empty strip changes nothing |
| Strip.RecalcIdempotent | app/src/main/java/org/thunderdog/challegram/navigation/ViewPagerTopView.java:594-596 | recomputing again with nothing changed reports nothing more |
| Strip.EndsTransitionIffLands | app/src/main/java/org/thunderdog/challegram/navigation/ViewPagerTopView.java:619-621 | a transition ends exactly when the position equals its destination |
| Strip.MoveSelectionEffect | app/src/main/java/org/thunderdog/challegram/navigation/ViewPagerTopView.java:617-625 | a new position is stored, the transition cleared iff it landed on the destination, nothing else but reporting changes, a live recompute follows, and in fill mode the indicator starts at `trunc(f × slot)` and is one slot wide |
| Strip.SetSelectionFactorEffect | app/src/main/java/org/thunderdog/challegram/navigation/ViewPagerTopView.java:616-626 | the same position changes nothing; a new one is `MoveSelection`; the call stores the position and repeating it changes nothing |
| Strip.FarJumpTicksAreSilent | app/src/main/java/org/thunderdog/challegram/navigation/ViewPagerTopView.java:616-624 | during a jump over more than one tab the position updates on the way report nothing, leave the last-report fields alone and keep the transition |
| Strip.FarJumpSettlesOnce | app/src/main/java/org/thunderdog/challegram/navigation/ViewPagerTopView.java:616-637 | a far jump reports exactly once from `setFromTo` when the destination's geometry is defined, a listener is set and it differs from the last report, and otherwise not at all; landing on the destination clears the transition and reports nothing more |
| Strip.SetFromToSameIgnored | app/src/main/java/org/thunderdog/challegram/navigation/ViewPagerTopView.java:632 | `setFromTo(i, i)` with `i != -1` is ignored |
| Strip.SetFromToEffect | app/src/main/java/org/thunderdog/challegram/navigation/ViewPagerTopView.java:631-639 | a new pair is stored without touching the drawn indicator or other fields; with a destination it is reported by a settle recompute there, without one nothing is reported |
| Strip.FillModeViewsTile | app/src/main/java/org/thunderdog/challegram/navigation/ViewPagerTopView.java:1028-1031 | in fill mode each touch view of a consistently indexed strip sits at `slot × position` and lies inside the width |
| TopView.ViewPagerTopView.constructor | app/src/main/java/org/thunderdog/challegram/navigation/ViewPagerTopView.java:209-215 | the new strip is `Strip.Initial`: no list, nothing measured, selection 0, no transition, and satisfies the invariant |
| TopView.ViewPagerTopView.SetTextPadding | app/src/main/java/org/thunderdog/challegram/navigation/ViewPagerTopView.java:228-230 | only the text padding changes |
| TopView.ViewPagerTopView.SetFitsParentWidth | app/src/main/java/org/thunderdog/challegram/navigation/ViewPagerTopView.java:234-236 | only `fitsParentWidth` changes |
| TopView.ViewPagerTopView.SetSelectionChangeListener | app/src/main/java/org/thunderdog/challegram/navigation/ViewPagerTopView.java:611-614 | only the listener presence changes |
| TopView.ViewPagerTopView.SameAsCurrent | app/src/main/java/org/thunderdog/challegram/navigation/ViewPagerTopView.java:361-373 | the comparison loop answers iff the new list is index-wise `equals` to the current tabs |
| TopView.ViewPagerTopView.MeasureItems | app/src/main/java/org/thunderdog/challegram/navigation/ViewPagerTopView.java:378-389 | the measuring loop yields a measured tab per item, their padded width sum and view indices 0..n-1 |
| TopView.ViewPagerTopView.StoreItems | app/src/main/java/org/thunderdog/challegram/navigation/ViewPagerTopView.java:374-389 | the list is set to the measured tabs with sum, mean (0 when empty), indices and `lastMeasuredWidth = 0` |
| TopView.ViewPagerTopView.ReplaceAllItems | app/src/main/java/org/thunderdog/challegram/navigation/ViewPagerTopView.java:374-389 | the object ends in `Strip.Rebuild` of its old state |
| TopView.ViewPagerTopView.SetItems | app/src/main/java/org/thunderdog/challegram/navigation/ViewPagerTopView.java:360-390 | the object ends in `Strip.SetItems` of its old state |
| TopView.ViewPagerTopView.ReplaceSlotAt | app/src/main/java/org/thunderdog/challegram/navigation/ViewPagerTopView.java:333-346 | the object ends with the tab replaced and sum, mean and measured width updated as `setItemAt` does |
| TopView.ViewPagerTopView.SetItemAt | app/src/main/java/org/thunderdog/challegram/navigation/ViewPagerTopView.java:332-347 | the object and the failure flag are `Strip.SetItemAt` of its old state |
| TopView.ViewPagerTopView.RequestItemLayoutAt | app/src/main/java/org/thunderdog/challegram/navigation/ViewPagerTopView.java:491-495 | the object and the failure flag are `Strip.RequestItemLayoutAt` of its old state |
| TopView.ViewPagerTopView.SetItemTranslationX | app/src/main/java/org/thunderdog/challegram/navigation/ViewPagerTopView.java:349-354 | the object and the failure flag are `Strip.SetItemTranslationX` of its old state |
| TopView.ViewPagerTopView.AddItemAtIndex | app/src/main/java/org/thunderdog/challegram/navigation/ViewPagerTopView.java:408-442 | the object and the failure flag are `Strip.AddItemAtIndex` of its old state |
| TopView.ViewPagerTopView.InsertItemAt | app/src/main/java/org/thunderdog/challegram/navigation/ViewPagerTopView.java:412-441 | the object ends in `Strip.InsertItem` of its old state |
| TopView.ViewPagerTopView.InsertSlot | app/src/main/java/org/thunderdog/challegram/navigation/ViewPagerTopView.java:412-440 | sum, mean, slot width from the tab's own width, selection shift, the fitted tab at its position and the appended view index, field by field |
| TopView.ViewPagerTopView.RemoveItemAt | app/src/main/java/org/thunderdog/challegram/navigation/ViewPagerTopView.java:450-464 | the object and the failure flag are `Strip.RemoveItemAt` of its old state |
| TopView.ViewPagerTopView.RemoveLastItem | app/src/main/java/org/thunderdog/challegram/navigation/ViewPagerTopView.java:444-448 | the object and the failure flag are `Strip.RemoveLastItem` of its old state |
| TopView.ViewPagerTopView.ComputeSelection | app/src/main/java/org/thunderdog/challegram/navigation/ViewPagerTopView.java:560-581 | the geometry loop succeeds exactly where `Geometry.SelectionGeometry` is defined and then returns its left edge and width |
| TopView.ViewPagerTopView.StoreSelection | app/src/main/java/org/thunderdog/challegram/navigation/ViewPagerTopView.java:583-596 | the indicator and reporting fields become `Strip.Report` of the old state |
| TopView.ViewPagerTopView.RecalculateSelection | app/src/main/java/org/thunderdog/challegram/navigation/ViewPagerTopView.java:556-597 | the object and the failure flag are `Strip.Recalc` of its old state |
| TopView.ViewPagerTopView.RecalculateNonEmpty | app/src/main/java/org/thunderdog/challegram/navigation/ViewPagerTopView.java:560-596 | the object and the failure flag are `Strip.Recalc` of its old state, for a non-empty list |
| TopView.ViewPagerTopView.FitSlots | app/src/main/java/org/thunderdog/challegram/navigation/ViewPagerTopView.java:529-542 | records the width, computes the slot and fits every tab against the available text width |
| TopView.ViewPagerTopView.FitItems | app/src/main/java/org/thunderdog/challegram/navigation/ViewPagerTopView.java:529-542 | the object ends in `Strip.Fitted` of its old state |
| TopView.ViewPagerTopView.Layout | app/src/main/java/org/thunderdog/challegram/navigation/ViewPagerTopView.java:522-552 | the object and the failure flag are `Strip.Layout` of its old state |
| TopView.ViewPagerTopView.LayoutItems | app/src/main/java/org/thunderdog/challegram/navigation/ViewPagerTopView.java:527-551 | the object and the failure flag are `Strip.LayoutItems` of its old state |
| TopView.ViewPagerTopView.ContentWidth | app/src/main/java/org/thunderdog/challegram/navigation/ViewPagerTopView.java:470-476 | `getTotalWidth` is the plain sum of the cached widths |
| TopView.ViewPagerTopView.Measure | app/src/main/java/org/thunderdog/challegram/navigation/ViewPagerTopView.java:497-507 | the object and the failure flag are `Strip.Measure` of its old state |
| TopView.ViewPagerTopView.FirePendingRecalc | app/src/main/java/org/thunderdog/challegram/navigation/ViewPagerTopView.java:544-548 | the object and the failure flag are `Strip.FirePendingRecalc` of its old state |
| TopView.ViewPagerTopView.SetSelectionFactor | app/src/main/java/org/thunderdog/challegram/navigation/ViewPagerTopView.java:616-626 | the object and the failure flag are `Strip.SetSelectionFactor` of its old state |
| TopView.ViewPagerTopView.MoveSelection | app/src/main/java/org/thunderdog/challegram/navigation/ViewPagerTopView.java:617-625 | the object and the failure flag are `Strip.MoveSelection` of its old state |
| TopView.ViewPagerTopView.SetFromTo | app/src/main/java/org/thunderdog/challegram/navigation/ViewPagerTopView.java:631-639 | the object and the failure flag are `Strip.SetFromTo` of its old state |
| TopView.ViewPagerTopView.MeasureView | app/src/main/java/org/thunderdog/challegram/navigation/ViewPagerTopView.java:1016-1033 | the placement loop returns `Strip.MeasureView`: the prefix sum (mirrored for right to left) in wrap mode, `slot × index` in fill mode |

## Left out

- `FlexxController.java` is not part of this model. It is a settings screen with no strip logic.
- Android view plumbing is not modelled: `super.onMeasure`, `requestLayout`, `invalidate`, `addView`/`removeViewAt`, ripple selectors, `checkRtl`, the emoji listener and long clicks. Touch views appear only as the sequence of their `index` fields.
- `onClick` is modelled only as `Strip.ClickedIndex`, the index a view reports; the click listener itself is not modelled.
- Canvas drawing, colours (`fromToArgb`, theme colour ids), the overlay rectangle, `setDrawSelectionAtTop` and the indicator height are left out. Only the arithmetic of `draw` is modelled.
- A custom `CounterAlphaProvider` is left out.
- Text shaping and ellipsizing (`U.measureEmojiText`, `TextUtils.ellipsize`, `U.createLayout`), counter widths and `Screen.dp` are left out: they are the uninterpreted fields of `Items.Metrics`.
- `StringUtils.equalsOrBothEmpty` is not part of this model. It is taken to compare texts with null and empty identified.
- Image and sticker loading is left out because it is a foreign asynchronous service:
  - `onUpdateItems`, `ComplexReceiver` and `ImageReceiver`;
  - the attach, detach and destroy lifecycle.
  
  A bound image appears only as the tab's `imageSize`.
- The `postDelayed` recompute is the flag `recalcPending`, run by `FirePendingRecalc`. Several posts before it runs collapse into one, and the 10 ms delay is not modelled.
- Listeners appear only as presence flags and a log of the calls they receive: the selection listener, the slide-off listener and its `onSlideOffPrepare` answer.
- `setTouchDisabled` and `setDisabledFactor` are left out. The disabled flag and factor are parameters of `Render.ConsumesTouch`, `Render.InterceptsTouch` and `Render.TouchGating`. The per-child `setEnabled` is plumbing.
- The `String[]` and `int[]` overloads of `setItems` and `addItem`, and `setItemAt(int, String)`, are left out. They only wrap values in `Item`.
- Floats are exact reals; float rounding is not modelled. Java int overflow is not modelled either: all ints are unbounded.
- Tabs are values, so two list positions holding the same `Item` object do not share their caches as they would in Java.
- Strip.SetItems: the list is copied into the strip instead of shared. In Java `setItems` keeps the caller's `List` object itself, so `addItemAtIndex` and `removeItemAt` also edit the caller's list, and the caller's later edits reach the strip's tabs without `totalWidth` or the touch views being updated. Pushing the same list object again after editing it in place is ignored in Java, because it equals itself index by index, so its new tabs are never measured. The model cannot express that sharing: its `setItems` compares against its own copy.
- A `null` item list (`itemsSet` false) makes `setItemAt`, `addItemAtIndex`, `setItemTranslationX`, `requestItemLayoutAt`, `removeLastItem` and wrap-mode `onMeasure` fail, just as their null dereference throws in Java.
- `draw` and `BackgroundView.onMeasure` on a `null` list are not modelled.
- Gesture.Step: no contract of its own. Its properties are stated by `Gesture.StepConsistent`, `Gesture.LocksOnlyAfterSlopAndPrepare`, `Gesture.UnlockedIsQuiet`, `Gesture.LockedMoveToggles`, `Gesture.ReleaseAndCancelEnd`, `Gesture.StepBalanced`, `Gesture.RunBalanced`.
- Gesture.PastThreshold: no contract of its own. Its properties are stated by `Gesture.LockedMoveToggles`.
- Geometry.CommonItemWidth: no contract of its own. Its properties are stated by `Geometry.CommonItemWidthBounds`, `Geometry.FillModeExample`.
- Geometry.SelectionGeometry: no contract of its own. Its properties are stated by `Strip.RecalcStoresGeometry`, `Geometry.FillSelectionTracks`, `Geometry.WrapSelectionAtTab`, `Geometry.WrapSelectionInterpolates`, `Geometry.WrapSelectionDefined`.
- Geometry.FillGeometry: no contract of its own. Its properties are stated by `Geometry.FillSelectionTracks`, `Geometry.FillLeftMonotone`, `Geometry.FillSelectionAtTab`.
- Geometry.WrapGeometry: no contract of its own. Its properties are stated by `Geometry.WrapSelectionAtTab`, `Geometry.WrapSelectionOrdered`, `Geometry.WrapSelectionInterpolates`, `Geometry.WrapSelectionDefined`.
- Render.HighlightFactor: no contract of its own. Its properties are stated by `Render.HighlightWithoutTransition`, `Render.HighlightDuringTransition`.
- Render.DrawX: no contract of its own. Its properties are stated by `Render.DrawXMirrors`, `Render.IndicatorCoversTab`.
- Render.IndicatorLeft: no contract of its own. Its properties are stated by `Render.DrawXMirrors`, `Render.IndicatorCoversTab`.
- Render.InterceptsTouch: no contract of its own. Its properties are stated by `Render.TouchGating`.
- Render.ConsumesTouch: no contract of its own. Its properties are stated by `Render.TouchGating`.
- Items.Equals: no contract of its own. Its properties are stated by `Items.EqualsCharacterized`, `Items.EqualsIsEquivalence`.
- Strip.EndsTransition: no contract of its own. Its properties are stated by `Strip.EndsTransitionIffLands`.
- Strip.MeasureView and Strip.ClickedIndex: no contract of their own. Their properties are stated by `Strip.FillModeViewsTile`, `Strip.RemoveItemAtLeavesStaleIndices` and `Geometry.WrapViewsAbut`.
- Strip.SetItems: its own contract states only the invariant; its effect is stated by `Strip.SetItemsRebuilds`, `Strip.SetItemsEqualListIsNoop`.
- Strip.Rebuild: its own contract states only the invariant; its effect is stated by `Strip.SetItemsRebuilds`.
- Strip.SetItemAt: its own contract states only the invariant; its effect is stated by `Strip.SetItemAtEffect`, `Strip.SetItemAtOutOfRange`, `Strip.SetItemAtKeepsWidths`.
- Strip.RequestItemLayoutAt: its own contract states only the invariant; its effect is stated by `Strip.RequestItemLayoutAtEffect`.
- Strip.SetItemTranslationX: its own contract states only the invariant; its effect is stated by `Strip.SetItemTranslationXEffect`.
- Strip.AddItemAtIndex: its own contract states only the invariant; its effect is stated by `Strip.AddItemAtIndexEffect`, `Strip.AddItemAtIndexOutOfRange`.
- Strip.InsertItem: its own contract states only the invariant; its effect is stated by `Strip.InsertItemEffect`.
- Strip.RemoveItemAt: its own contract states only the invariant; its effect is stated by `Strip.RemoveItemAtEffect`.
- Strip.RemoveLastItem: its own contract states only the invariant; its effect is stated by `Strip.RemoveLastItemEffect`, `Strip.RemoveLastItemOnEmpty`.
- Strip.Recalc: its own contract states only the invariant and the unchanged fields; its effect is stated by `Strip.RecalcStoresGeometry`, `Strip.RecalcReporting`.
- Strip.Layout: its own contract states only the invariant; its effect is stated by `Strip.LayoutEffect`, `Strip.LayoutNoopCases`.
- Strip.LayoutItems: its own contract states only the invariant; its effect is stated by `Strip.LayoutEffect`.
- Strip.Fitted: its own contract states only the invariant; its effect is stated by `Strip.LayoutEffect`.
- Strip.Measure: its own contract states only the invariant; its effect is stated by `Strip.MeasureEffect`.
- Strip.FirePendingRecalc: its own contract states only the invariant; its effect is stated by `Strip.FirePendingRecalcEffect`.
- Strip.SetSelectionFactor: its own contract states only the invariant; its effect is stated by `Strip.SetSelectionFactorEffect`.
- Strip.MoveSelection: its own contract states only the invariant; its effect is stated by `Strip.MoveSelectionEffect`.
- Strip.SetFromTo: its own contract states only the invariant; its effect is stated by `Strip.SetFromToEffect`, `Strip.SetFromToSameIgnored`.
- Items.NewSlot: a tab is always rebuilt from scratch, so pushing again an `Item` object that was already in the list starts over with actual width 0, no text layout and no translation. In Java the object keeps its old `actualWidth`, layout and `translationX` until the next `layout` overwrites the first two; the kept translation is not modelled.
