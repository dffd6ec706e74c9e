/** The tab strip's state and its operations as transitions on that state:
    list edits with their width bookkeeping, layout for a viewport width,
    the selection indicator recomputation with its listener gating, and the
    selection position updates. `TopView.ViewPagerTopView` carries out the
    same transitions in place. */
module Strip {
  import opened Util
  import opened Items
  import opened Geometry
  import opened Render

  /** One call of `SelectionChangeListener.onSelectionChanged`. */
  datatype SelectionChange = SelectionChange(
    left: int, width: int, firstItemWidth: int, lastItemWidth: int, totalFactor: real, animated: bool)

  /** The indicator as last computed and as last reported, and every report
      made so far. */
  datatype Reporting = Reporting(
    selectionLeft: int,
    selectionWidth: int,
    lastCallLeft: int,
    lastCallWidth: int,
    lastCallFactor: real,
    notifications: seq<SelectionChange>)

  /** The strip's fields. `itemsSet` is false while the item list is still
      `null`; `views` holds the `index` field of each touch view, in child
      order; `recalcPending` stands for the posted deferred recompute. */
  datatype StripState = StripState(
    metrics: Metrics,
    itemsSet: bool,
    items: seq<Slot>,
    views: seq<int>,
    totalWidth: int,
    maxItemWidth: int,
    textPadding: int,
    fitsParentWidth: bool,
    wrapContent: bool,
    lastMeasuredWidth: int,
    commonItemWidth: int,
    selectionFactor: real,
    fromIndex: int,
    toIndex: int,
    hasSelectionListener: bool,
    recalcPending: bool,
    reporting: Reporting)

  /** The state after an operation, and whether the operation ended by
      throwing (the state is then what had been changed before the throw). */
  datatype Outcome = Outcome(state: StripState, failed: bool)

  /** What every operation keeps: one touch view per tab, no tabs before the
      list is set, and a well-formed transition. */
  predicate Invariant(s: StripState) {
    && |s.views| == |s.items|
    && (!s.itemsSet ==> s.items == [])
    && TransitionOk(s.fromIndex, s.toIndex)
  }

  /** `maxItemWidth` as computed from `totalWidth`: the mean, 0 for no tabs. */
  function MeanWidth(total: int, n: int): int {
    if n == 0 then 0 else JavaDiv(total, n)
  }

  /** The width bookkeeping is up to date: `totalWidth` is the padded sum of
      the tabs' widths and `maxItemWidth` its mean. */
  predicate WidthsInSync(s: StripState) {
    s.totalWidth == SlotSum(s.items, s.textPadding) && s.maxItemWidth == MeanWidth(s.totalWidth, |s.items|)
  }

  function ItemsOf(slots: seq<Slot>): (r: seq<Item>)
    ensures |r| == |slots| && forall i :: 0 <= i < |slots| ==> r[i] == slots[i].item
  {
    seq(|slots|, i requires 0 <= i < |slots| => slots[i].item)
  }

  function Range(n: nat): (r: seq<int>)
    ensures |r| == n && forall i :: 0 <= i < n ==> r[i] == i
  {
    seq(n, i => i)
  }

  function NewSlots(list: seq<Item>, m: Metrics): (r: seq<Slot>)
    ensures |r| == |list| && forall i :: 0 <= i < |list| ==> r[i] == NewSlot(list[i], m)
  {
    seq(|list|, i requires 0 <= i < |list| => NewSlot(list[i], m))
  }

  /** The padded actual widths the indicator is measured against. */
  function PaddedActualWidths(slots: seq<Slot>, padding: int): (r: seq<int>)
    ensures |r| == |slots| && forall i :: 0 <= i < |slots| ==> r[i] == slots[i].actualWidth + 2 * padding
  {
    seq(|slots|, i requires 0 <= i < |slots| => slots[i].actualWidth + 2 * padding)
  }

  /** The padded full widths the touch views are sized by in wrap mode. */
  function PaddedWidths(slots: seq<Slot>, padding: int): (r: seq<int>)
    ensures |r| == |slots| && forall i :: 0 <= i < |slots| ==> r[i] == slots[i].width + 2 * padding
  {
    seq(|slots|, i requires 0 <= i < |slots| => slots[i].width + 2 * padding)
  }

  /** Every tab after the trimming pass of `layout`. */
  function FitAll(slots: seq<Slot>, availWidth: int, wrapContent: bool, m: Metrics): (r: seq<Slot>)
    ensures |r| == |slots| && forall i :: 0 <= i < |slots| ==> r[i] == Fit(slots[i], availWidth, wrapContent, m)
  {
    seq(|slots|, i requires 0 <= i < |slots| => Fit(slots[i], availWidth, wrapContent, m))
  }

  /** A new strip: no list yet, nothing measured, selection at 0, no
      transition, nothing reported. */
  function Initial(m: Metrics, textPadding: int, wrapContent: bool, hasSelectionListener: bool): (r: StripState)
    ensures Invariant(r) && WidthsInSync(r)
    ensures !r.itemsSet && r.items == [] && r.views == [] && r.reporting.notifications == []
  {
    StripState(m, false, [], [], 0, 0, textPadding, false, wrapContent, 0, 0, 0.0, -1, -1,
               hasSelectionListener, false, Reporting(0, 0, 0, 0, 0.0, []))
  }

  /** `setItems(List<Item>)`: nothing happens when the new list has the same
      length and is index-wise `equals` to the current one; otherwise the
      tabs are replaced, measured and summed, one touch view is made per tab,
      and the strip is marked unmeasured. */
  function SetItems(s: StripState, list: seq<Item>): (r: StripState)
    ensures Invariant(s) ==> Invariant(r)
  {
    if s.itemsSet && SameItems(list, ItemsOf(s.items)) then s else Rebuild(s, list)
  }

  /** The replacing half of `setItems`. */
  function Rebuild(s: StripState, list: seq<Item>): (r: StripState)
    ensures Invariant(s) ==> Invariant(r)
  {
    var slots := NewSlots(list, s.metrics);
    var total := SlotSum(slots, s.textPadding);
    s.(itemsSet := true, items := slots, views := Range(|list|), totalWidth := total,
       lastMeasuredWidth := 0, maxItemWidth := MeanWidth(total, |list|))
  }

  /** Puts `slot` at `index`, updating the width sum and mean, and marks the
      strip unmeasured (the shared tail of `setItemAt`). */
  function ReplaceSlot(s: StripState, index: int, slot: Slot): (r: StripState)
    requires 0 <= index < |s.items|
    ensures |r.items| == |s.items| && r.items[index] == slot
    ensures forall j :: 0 <= j < |s.items| && j != index ==> r.items[j] == s.items[j]
    ensures WidthsInSync(s) ==> WidthsInSync(r)
  {
    SlotSumReplace(s.items, index, slot, s.textPadding);
    var total := s.totalWidth - (s.items[index].width + s.textPadding * 2) + (slot.width + s.textPadding * 2);
    s.(items := s.items[index := slot], totalWidth := total,
       maxItemWidth := JavaDiv(total, |s.items|), lastMeasuredWidth := 0)
  }

  /** `setItemAt(index, item)`: throws for an index outside the list (and
      for an unset list, which is empty here). */
  function SetItemAt(s: StripState, index: int, item: Item): (r: Outcome)
    ensures Invariant(s) ==> Invariant(r.state)
  {
    if 0 <= index < |s.items| then Outcome(ReplaceSlot(s, index, NewSlot(item, s.metrics)), false)
    else Outcome(s, true)
  }

  /** `requestItemLayoutAt(index)`: `setItemAt` with the tab already there,
      so only its width is measured again; ignored outside the list, throws
      when no list is set. */
  function RequestItemLayoutAt(s: StripState, index: int): (r: Outcome)
    ensures Invariant(s) ==> Invariant(r.state)
  {
    if !s.itemsSet then Outcome(s, true)
    else if 0 <= index < |s.items| then Outcome(ReplaceSlot(s, index, Remeasure(s.items[index], s.metrics)), false)
    else Outcome(s, false)
  }

  /** `setItemTranslationX(index, x)`: ignored at or past the end, throws
      for a negative index or when no list is set. */
  function SetItemTranslationX(s: StripState, index: int, x: int): (r: Outcome)
    ensures Invariant(s) ==> Invariant(r.state)
  {
    if !s.itemsSet then Outcome(s, true)
    else if index >= |s.items| then Outcome(s, false)
    else if index < 0 then Outcome(s, true)
    else Outcome(s.(items := s.items[index := s.items[index].(translationX := x)]), false)
  }

  /** The position `addItemAtIndex` inserts at: `-1` means append. */
  function InsertPosition(s: StripState, index: int): int {
    if index == -1 then |s.items| else index
  }

  /** `addItemAtIndex(item, index)`: throws for a position outside
      `[0, size]` or when no list is set; otherwise inserts the measured tab, adds it to the width
      sum, recomputes the mean and the common slot width (from the tab's own
      width), moves the selection one place right when the insertion is at
      or before it, trims the new tab in fill mode and appends a touch view
      whose index is the last position. */
  function AddItemAtIndex(s: StripState, item: Item, index: int): (r: Outcome)
    ensures Invariant(s) ==> Invariant(r.state)
  {
    var idx := InsertPosition(s, index);
    if !s.itemsSet || !(0 <= idx <= |s.items|) then Outcome(s, true)
    else Outcome(InsertItem(s, item, idx), false)
  }

  /** The inserting half of `addItemAtIndex`, at a position in range. */
  function InsertItem(s: StripState, item: Item, idx: int): (r: StripState)
    requires s.itemsSet && 0 <= idx <= |s.items|
    ensures Invariant(s) ==> Invariant(r)
  {
    var slot := NewSlot(item, s.metrics);
    var n := |s.items| + 1;
    var total := s.totalWidth + (slot.width + s.textPadding * 2);
    var maxWidth := JavaDiv(total, n);
    var common := CommonItemWidth(slot.width, n, maxWidth, s.fitsParentWidth);
    var factor := if idx <= Trunc(s.selectionFactor) then s.selectionFactor + 1.0 else s.selectionFactor;
    var fitted := Fit(slot, common - s.textPadding * 2, s.wrapContent, s.metrics);
    s.(items := s.items[..idx] + [fitted] + s.items[idx..], totalWidth := total,
       maxItemWidth := maxWidth, commonItemWidth := common, selectionFactor := factor,
       views := s.views + [n - 1])
  }

  /** `removeItemAt(index)`: throws `IllegalArgumentException` outside
      `[0, size)`; otherwise removes the tab and its touch view, pulls the
      selection back when it points past the new end, and leaves the width
      sum, the mean and the other views' indices as they were. */
  function RemoveItemAt(s: StripState, index: int): (r: Outcome)
    requires Invariant(s)
    ensures Invariant(r.state)
  {
    if !(0 <= index < |s.items|) then Outcome(s, true)
    else
      var rest := s.items[..index] + s.items[index + 1..];
      var factor := if Trunc(s.selectionFactor) >= |rest| then s.selectionFactor - 1.0 else s.selectionFactor;
      Outcome(s.(items := rest, selectionFactor := factor, views := s.views[..index] + s.views[index + 1..]), false)
  }

  /** `removeLastItem()`: nothing on an empty strip; throws when no list is
      set. */
  function RemoveLastItem(s: StripState): (r: Outcome)
    requires Invariant(s)
    ensures Invariant(r.state)
  {
    if !s.itemsSet then Outcome(s, true)
    else if |s.items| == 0 then Outcome(s, false) else RemoveItemAt(s, |s.items| - 1)
  }

  /** `recalculateSelection(f, set)` with `set` named `update`: nothing for an
      empty strip; throws where the geometry reads past the list; otherwise
      stores the new indicator when `update`, and reports it when the gate
      allows, a listener is set and the report differs from the last one in
      left, width or total factor. */
  function Recalc(s: StripState, f: real, update: bool): (r: Outcome)
    ensures r.state == s.(reporting := r.state.reporting)
    ensures Invariant(s) ==> Invariant(r.state)
  {
    if |s.items| == 0 then Outcome(s, false)
    else
      var g := SelectionGeometry(PaddedActualWidths(s.items, s.textPadding), s.commonItemWidth, s.wrapContent, f);
      if g.None? then Outcome(s, true)
      else Outcome(s.(reporting := Report(s, g.value, f, update)), false)
  }

  /** What a recompute that found indicator `r` stores and reports: a live
      call stores `r` as the drawn indicator, a settle call keeps the old one,
      and the notification log only grows, by at most one entry. */
  function Report(s: StripState, r: Rect, f: real, update: bool): (out: Reporting)
    requires |s.items| > 0
    ensures |s.reporting.notifications| <= |out.notifications| <= |s.reporting.notifications| + 1
    ensures out.notifications[..|s.reporting.notifications|] == s.reporting.notifications
    ensures !update ==> out.selectionLeft == s.reporting.selectionLeft && out.selectionWidth == s.reporting.selectionWidth
    ensures update ==> out.selectionLeft == r.left && out.selectionWidth == r.width
  {
    var rep := s.reporting;
    var tf := TotalFactor(f, |s.items|);
    var shown := if update then rep.(selectionLeft := r.left, selectionWidth := r.width) else rep;
    var notify := CallListener(update, s.fromIndex, s.toIndex) && s.hasSelectionListener
      && (rep.lastCallLeft != r.left || rep.lastCallWidth != r.width || rep.lastCallFactor != tf);
    var change := SelectionChange(r.left, r.width, s.items[0].actualWidth, s.items[|s.items| - 1].actualWidth, tf, !update);
    if notify then
      shown.(lastCallLeft := r.left, lastCallWidth := r.width, lastCallFactor := tf,
             notifications := rep.notifications + [change])
    else shown
  }

  /** Whether `layout` does anything for `width`. */
  predicate LaysOut(s: StripState, width: int) {
    width != 0 && s.lastMeasuredWidth != width && s.itemsSet
  }

  /** `layout(width, wrapContent)`: nothing for width 0, an unchanged width
      or an unset list; for an empty list it records the width and then
      throws (the slot width divides by the tab count); otherwise records
      the width, computes the slot, trims or untrims every tab, and
      recomputes the indicator now on the first layout or marks the
      recompute pending on a later one. */
  function Layout(s: StripState, width: int, wrapContent: bool): (r: Outcome)
    ensures Invariant(s) ==> Invariant(r.state)
  {
    if !LaysOut(s, width) then Outcome(s, false)
    else if |s.items| == 0 then Outcome(s.(lastMeasuredWidth := width), true)
    else LayoutItems(s, width, wrapContent)
  }

  /** The pass of `layout` over a non-empty list of tabs. */
  function LayoutItems(s: StripState, width: int, wrapContent: bool): (r: Outcome)
    requires |s.items| > 0
    ensures Invariant(s) ==> Invariant(r.state)
  {
    var t := Fitted(s, width, wrapContent);
    if s.lastMeasuredWidth != 0 then Outcome(t.(recalcPending := true), false)
    else Recalc(t, t.selectionFactor, true)
  }

  /** The state after the trimming pass of `layout`. */
  function Fitted(s: StripState, width: int, wrapContent: bool): (r: StripState)
    requires |s.items| > 0
    ensures Invariant(s) ==> Invariant(r)
  {
    var common := CommonItemWidth(width, |s.items|, s.maxItemWidth, s.fitsParentWidth);
    s.(lastMeasuredWidth := width, commonItemWidth := common,
       items := FitAll(s.items, common - s.textPadding * 2, wrapContent, s.metrics))
  }

  /** The width `onMeasure` lays the strip out for: its content width in
      wrap mode, the measured width otherwise. */
  function MeasureTarget(s: StripState, measuredWidth: int): (w: int)
    ensures s.wrapContent ==> w == SlotSum(s.items, s.textPadding)
    ensures !s.wrapContent ==> w == measuredWidth
    ensures s.wrapContent && WidthsInSync(s) ==> w == s.totalWidth
  {
    SlotSumSplit(s.items, s.textPadding);
    if s.wrapContent then s.textPadding * 2 * |s.items| + SumWidths(s.items) else measuredWidth
  }

  /** `onMeasure`: throws in wrap mode when no list is set. */
  function Measure(s: StripState, measuredWidth: int): (r: Outcome)
    ensures Invariant(s) ==> Invariant(r.state)
  {
    if s.wrapContent && !s.itemsSet then Outcome(s, true)
    else Layout(s, MeasureTarget(s, measuredWidth), s.wrapContent)
  }

  /** The deferred recompute firing. */
  function FirePendingRecalc(s: StripState): (r: Outcome)
    ensures Invariant(s) ==> Invariant(r.state)
  {
    if s.recalcPending then Recalc(s.(recalcPending := false), s.selectionFactor, true) else Outcome(s, false)
  }

  /** Whether a new selection position ends the explicit transition: it
      lands exactly on the destination. */
  predicate EndsTransition(s: StripState, f: real) {
    s.toIndex != -1 && Trunc(f) == s.toIndex && IsIntegral(f)
  }

  /** `setSelectionFactor(f)`: nothing when unchanged; otherwise stores the
      position, ends the transition when it lands on its destination, and
      recomputes the indicator as a live update. */
  function SetSelectionFactor(s: StripState, f: real): (r: Outcome)
    ensures Invariant(s) ==> Invariant(r.state)
  {
    if s.selectionFactor == f then Outcome(s, false) else MoveSelection(s, f)
  }

  /** `setSelectionFactor(f)` for a position that differs from the stored one. */
  function MoveSelection(s: StripState, f: real): (r: Outcome)
    ensures Invariant(s) ==> Invariant(r.state)
  {
    var clear := EndsTransition(s, f);
    var t := s.(selectionFactor := f,
                fromIndex := if clear then -1 else s.fromIndex,
                toIndex := if clear then -1 else s.toIndex);
    Recalc(t, f, true)
  }

  /** `setFromTo(from, to)`: ignored for `from == to` unless both are `-1`;
      otherwise stores the transition and, when it has a destination, runs
      the settle recompute for that destination without moving the
      indicator. */
  function SetFromTo(s: StripState, fromIndex: int, toIndex: int): (r: Outcome)
    ensures Invariant(s) ==> Invariant(r.state)
  {
    if fromIndex != toIndex || fromIndex == -1 then
      var t := s.(fromIndex := fromIndex, toIndex := toIndex);
      if toIndex != -1 then Recalc(t, toIndex as real, false) else Outcome(t, false)
    else Outcome(s, false)
  }

  /** `BackgroundView.onMeasure` for the touch view at child `position`,
      using the index stored in that view. */
  function MeasureView(s: StripState, position: int, rtl: bool, specWidth: int): Option<Placement>
    requires Invariant(s) && 0 <= position < |s.views|
  {
    var slot := if s.wrapContent then 0 else CommonItemWidth(specWidth, |s.items|, s.maxItemWidth, s.fitsParentWidth);
    ViewPlacement(PaddedWidths(s.items, s.textPadding), s.views[position], s.wrapContent, rtl, specWidth, slot)
  }

  /** `onClick`: the index reported for a click on the view at `position`. */
  function ClickedIndex(s: StripState, position: int): int
    requires 0 <= position < |s.views|
  {
    s.views[position]
  }

  // ----- Properties -------------------------------------------------------

  /** Re-pushing an index-wise equal list changes nothing at all. */
  lemma SetItemsEqualListIsNoop(s: StripState, list: seq<Item>)
    requires s.itemsSet && SameItems(list, ItemsOf(s.items))
    ensures SetItems(s, list) == s
  {
  }

  /** Any other list replaces the tabs and brings the width bookkeeping in
      sync, with the strip unmeasured and one touch view per tab. */
  lemma SetItemsRebuilds(s: StripState, list: seq<Item>)
    requires !(s.itemsSet && SameItems(list, ItemsOf(s.items)))
    ensures var r := SetItems(s, list);
      && r.itemsSet && ItemsOf(r.items) == list
      && WidthsInSync(r)
      && r.lastMeasuredWidth == 0
      && r.views == Range(|list|)
      && (forall i :: 0 <= i < |list| ==> r.items[i].width == CalculateWidth(list[i], s.metrics))
      && r.selectionFactor == s.selectionFactor && r.reporting == s.reporting
      && r.items == NewSlots(list, s.metrics)
      && r.(itemsSet := s.itemsSet, items := s.items, views := s.views, totalWidth := s.totalWidth,
            maxItemWidth := s.maxItemWidth, lastMeasuredWidth := s.lastMeasuredWidth) == s
  {
  }

  /** `setItemAt` keeps the width sum in sync and recomputes the mean. */
  lemma SetItemAtKeepsWidths(s: StripState, index: int, item: Item)
    requires WidthsInSync(s) && 0 <= index < |s.items|
    ensures var r := SetItemAt(s, index, item);
      && !r.failed && WidthsInSync(r.state)
      && ItemsOf(r.state.items) == ItemsOf(s.items)[index := item]
      && r.state.lastMeasuredWidth == 0
  {
    SlotSumReplace(s.items, index, NewSlot(item, s.metrics), s.textPadding);
    assert ItemsOf(SetItemAt(s, index, item).state.items) == ItemsOf(s.items)[index := item];
  }

  /** `setItemAt` in range puts a freshly measured tab at `index`, keeps
      every other tab, adjusts the width sum by the difference of the two
      padded widths, and changes no field but the tabs, the width sum, the
      mean and the last laid-out width (reset to 0, forcing a layout). */
  lemma SetItemAtEffect(s: StripState, index: int, item: Item)
    requires 0 <= index < |s.items|
    ensures var r := SetItemAt(s, index, item);
      && !r.failed
      && |r.state.items| == |s.items|
      && r.state.items[index] == NewSlot(item, s.metrics)
      && (forall j :: 0 <= j < |s.items| && j != index ==> r.state.items[j] == s.items[j])
      && r.state.totalWidth == s.totalWidth - s.items[index].width + NewSlot(item, s.metrics).width
      && r.state.lastMeasuredWidth == 0
      && r.state.maxItemWidth == JavaDiv(r.state.totalWidth, |r.state.items|)
      && r.state.(items := s.items, totalWidth := s.totalWidth, maxItemWidth := s.maxItemWidth,
                  lastMeasuredWidth := s.lastMeasuredWidth) == s
  {
  }

  /** `requestItemLayoutAt` keeps the width sum in sync too. */
  lemma RequestItemLayoutKeepsWidths(s: StripState, index: int)
    requires WidthsInSync(s) && 0 <= index < |s.items|
    ensures WidthsInSync(RequestItemLayoutAt(s, index).state)
  {
    SlotSumReplace(s.items, index, Remeasure(s.items[index], s.metrics), s.textPadding);
  }

  /** `requestItemLayoutAt` throws exactly when no list is set and ignores an
      index outside the list; otherwise it measures exactly that tab again,
      leaves every other tab, the touch views, the selection and the
      indicator alone, marks the strip unmeasured and keeps the width sum in
      sync. */
  lemma RequestItemLayoutAtEffect(s: StripState, index: int)
    ensures var r := RequestItemLayoutAt(s, index);
      && (r.failed <==> !s.itemsSet)
      && (r.failed || !(0 <= index < |s.items|) ==> r.state == s)
      && (s.itemsSet && 0 <= index < |s.items| ==>
          && |r.state.items| == |s.items|
          && r.state.items[index] == s.items[index].(width := CalculateWidth(s.items[index].item, s.metrics))
          && (forall j :: 0 <= j < |s.items| && j != index ==> r.state.items[j] == s.items[j])
          && r.state.lastMeasuredWidth == 0
          && r.state.views == s.views && r.state.selectionFactor == s.selectionFactor
          && r.state.commonItemWidth == s.commonItemWidth && r.state.reporting == s.reporting
          && (WidthsInSync(s) ==> WidthsInSync(r.state)))
  {
    if s.itemsSet && 0 <= index < |s.items| && WidthsInSync(s) {
      RequestItemLayoutKeepsWidths(s, index);
    }
  }

  /** `setItemTranslationX` throws exactly when no list is set or the index is
      negative and ignores an index at or past the end; otherwise only that
      tab's `translationX` changes, so the tabs' contents and the width
      bookkeeping stay as they were. */
  lemma SetItemTranslationXEffect(s: StripState, index: int, x: int)
    ensures var r := SetItemTranslationX(s, index, x);
      && (r.failed <==> !s.itemsSet || index < 0)
      && (r.failed || index >= |s.items| ==> r.state == s)
      && (!r.failed && index < |s.items| ==>
          && |r.state.items| == |s.items|
          && r.state.items[index] == s.items[index].(translationX := x)
          && (forall j :: 0 <= j < |s.items| && j != index ==> r.state.items[j] == s.items[j])
          && r.state.(items := s.items) == s
          && ItemsOf(r.state.items) == ItemsOf(s.items)
          && (WidthsInSync(s) ==> WidthsInSync(r.state)))
  {
    var r := SetItemTranslationX(s, index, x);
    if !r.failed && index < |s.items| {
      SlotSumReplace(s.items, index, s.items[index].(translationX := x), s.textPadding);
      assert ItemsOf(r.state.items) == ItemsOf(s.items);
    }
  }

  /** `setItemAt` outside the list throws and changes nothing. */
  lemma SetItemAtOutOfRange(s: StripState, index: int, item: Item)
    requires !(0 <= index < |s.items|)
    ensures SetItemAt(s, index, item) == Outcome(s, true)
  {
  }

  /** `addItemAtIndex` inserts exactly the new tab at its position (`-1`
      appends), adds its padded width to the sum, recomputes the mean, and
      moves the selection right exactly when the insertion is at or before
      it, whatever state the bookkeeping was in before; a width sum in sync
      stays in sync. The new touch view is appended with the last index, so
      consistently indexed views stay consistent. */
  lemma AddItemAtIndexEffect(s: StripState, item: Item, index: int)
    requires s.itemsSet
    requires index == -1 || 0 <= index <= |s.items|
    ensures var r := AddItemAtIndex(s, item, index);
      var idx := if index == -1 then |s.items| else index;
      && !r.failed
      && r.state == InsertItem(s, item, idx)
      && ItemsOf(r.state.items) == ItemsOf(s.items)[..idx] + [item] + ItemsOf(s.items)[idx..]
      && (index == -1 ==> ItemsOf(r.state.items) == ItemsOf(s.items) + [item])
      && r.state.totalWidth == s.totalWidth + NewSlot(item, s.metrics).width + 2 * s.textPadding
      && r.state.maxItemWidth == JavaDiv(r.state.totalWidth, |r.state.items|)
      && (WidthsInSync(s) ==> WidthsInSync(r.state))
      && r.state.selectionFactor == (if idx <= Trunc(s.selectionFactor) then s.selectionFactor + 1.0 else s.selectionFactor)
      && r.state.lastMeasuredWidth == s.lastMeasuredWidth
      && r.state.views == s.views + [|s.items|]
      && (s.views == Range(|s.items|) ==> r.state.views == Range(|r.state.items|))
  {
    var idx := if index == -1 then |s.items| else index;
    assert AddItemAtIndex(s, item, index) == Outcome(InsertItem(s, item, idx), false);
    InsertItemEffect(s, item, idx);
    if index == -1 {
      assert ItemsOf(s.items)[idx..] == [] && ItemsOf(s.items)[..idx] == ItemsOf(s.items);
    }
  }

  /** Inserting at `idx`: the kept tabs keep their caches, the new tab is
      the measured one fitted against the new slot, that slot is computed
      from the new tab's own width (not the strip's), and no field but the
      tabs, the width sum, the mean, the slot, the selection and the views
      changes. */
  lemma InsertItemEffect(s: StripState, item: Item, idx: int)
    requires s.itemsSet && 0 <= idx <= |s.items|
    ensures var r := InsertItem(s, item, idx);
      var slot := NewSlot(item, s.metrics);
      && r.items == s.items[..idx] + [Fit(slot, r.commonItemWidth - 2 * s.textPadding, s.wrapContent, s.metrics)] + s.items[idx..]
      && ItemsOf(r.items) == ItemsOf(s.items)[..idx] + [item] + ItemsOf(s.items)[idx..]
      && r.totalWidth == s.totalWidth + slot.width + 2 * s.textPadding
      && r.maxItemWidth == JavaDiv(r.totalWidth, |r.items|)
      && r.commonItemWidth == CommonItemWidth(slot.width, |r.items|, r.maxItemWidth, s.fitsParentWidth)
      && (WidthsInSync(s) ==> WidthsInSync(r))
      && r.selectionFactor == (if idx <= Trunc(s.selectionFactor) then s.selectionFactor + 1.0 else s.selectionFactor)
      && r.views == s.views + [|s.items|]
      && r.(items := s.items, totalWidth := s.totalWidth, maxItemWidth := s.maxItemWidth,
            commonItemWidth := s.commonItemWidth, selectionFactor := s.selectionFactor, views := s.views) == s
  {
    var r := InsertItem(s, item, idx);
    var slot := NewSlot(item, s.metrics);
    var fitted := Fit(slot, r.commonItemWidth - s.textPadding * 2, s.wrapContent, s.metrics);
    FitCases(slot, r.commonItemWidth - s.textPadding * 2, s.wrapContent, s.metrics);
    assert r.items == s.items[..idx] + [fitted] + s.items[idx..];
    SlotSumInsert(s.items, idx, fitted, s.textPadding);
    ItemsOfInsert(s.items, idx, fitted);
  }

  lemma ItemsOfInsert(xs: seq<Slot>, idx: int, x: Slot)
    requires 0 <= idx <= |xs|
    ensures ItemsOf(xs[..idx] + [x] + xs[idx..]) == ItemsOf(xs)[..idx] + [x.item] + ItemsOf(xs)[idx..]
  {
    var l := ItemsOf(xs[..idx] + [x] + xs[idx..]);
    var r := ItemsOf(xs)[..idx] + [x.item] + ItemsOf(xs)[idx..];
    assert |l| == |r|;
    forall i | 0 <= i < |l|
      ensures l[i] == r[i]
    {
      if i < idx {
      } else if i == idx {
      } else {
        assert l[i] == xs[i - 1].item;
      }
    }
  }

  /** `addItemAtIndex` at an impossible position throws and changes nothing. */
  lemma AddItemAtIndexOutOfRange(s: StripState, item: Item, index: int)
    requires !s.itemsSet || (index != -1 && !(0 <= index <= |s.items|))
    ensures AddItemAtIndex(s, item, index) == Outcome(s, true)
  {
  }

  /** `removeItemAt` throws exactly outside `[0, size)`; otherwise it removes
      exactly that tab, pulls the selection back exactly when its integer
      part reaches the new size, and leaves the width bookkeeping alone. */
  lemma RemoveItemAtEffect(s: StripState, index: int)
    requires Invariant(s)
    ensures var r := RemoveItemAt(s, index);
      && (r.failed <==> !(0 <= index < |s.items|))
      && (r.failed ==> r.state == s)
      && (!r.failed ==>
          && ItemsOf(r.state.items) == ItemsOf(s.items)[..index] + ItemsOf(s.items)[index + 1..]
          && (r.state.selectionFactor ==
              if Trunc(s.selectionFactor) >= |s.items| - 1 then s.selectionFactor - 1.0 else s.selectionFactor)
          && r.state.totalWidth == s.totalWidth && r.state.maxItemWidth == s.maxItemWidth
          && r.state.items == s.items[..index] + s.items[index + 1..]
          && r.state.views == s.views[..index] + s.views[index + 1..]
          && r.state.(items := s.items, selectionFactor := s.selectionFactor, views := s.views) == s)
  {
    var r := RemoveItemAt(s, index);
    if !r.failed {
      assert ItemsOf(r.state.items) == ItemsOf(s.items)[..index] + ItemsOf(s.items)[index + 1..];
    }
  }

  /** Because `removeItemAt` does not touch the width sum, removing a tab
      whose padded width is not zero leaves `totalWidth` out of sync. */
  lemma RemoveItemAtDesyncsWidths(s: StripState, index: int)
    requires Invariant(s) && WidthsInSync(s) && 0 <= index < |s.items|
    requires s.items[index].width + 2 * s.textPadding != 0
    ensures !WidthsInSync(RemoveItemAt(s, index).state)
  {
    var rest := s.items[..index] + s.items[index + 1..];
    assert s.items == s.items[..index] + [s.items[index]] + s.items[index + 1..];
    SlotSumAppend(s.items[..index] + [s.items[index]], s.items[index + 1..], s.textPadding);
    SlotSumAppend(s.items[..index], [s.items[index]], s.textPadding);
    SlotSumAppend(s.items[..index], s.items[index + 1..], s.textPadding);
    assert SlotSum([s.items[index]], s.textPadding) == s.items[index].width + 2 * s.textPadding;
  }

  /** Nor are the remaining views re-indexed: after removing a tab from a
      consistently indexed strip, each later view still reports its old
      index, one more than its new position. */
  lemma RemoveItemAtLeavesStaleIndices(s: StripState, index: int, position: int)
    requires Invariant(s) && s.views == Range(|s.items|)
    requires 0 <= index <= position && position + 1 < |s.items|
    ensures var r := RemoveItemAt(s, index).state;
      position < |r.views| && ClickedIndex(r, position) == position + 1
  {
  }

  /** `removeLastItem` on an empty strip does nothing. */
  lemma RemoveLastItemOnEmpty(s: StripState)
    requires Invariant(s) && s.itemsSet && |s.items| == 0
    ensures RemoveLastItem(s) == Outcome(s, false)
  {
  }

  /** On a non-empty strip `removeLastItem` is `removeItemAt` of the last
      tab: it drops exactly that tab and its touch view and never fails. */
  lemma RemoveLastItemEffect(s: StripState)
    requires Invariant(s) && |s.items| > 0
    ensures RemoveLastItem(s) == RemoveItemAt(s, |s.items| - 1)
    ensures var r := RemoveLastItem(s);
      && !r.failed
      && r.state.items == s.items[..|s.items| - 1]
      && r.state.views == s.views[..|s.views| - 1]
  {
    assert s.items[|s.items|..] == [];
    assert s.views[|s.views|..] == [];
  }

  /** `layout` does nothing for a zero width or the width it last laid out
      for. */
  lemma LayoutNoopCases(s: StripState, wrapContent: bool)
    ensures Layout(s, 0, wrapContent) == Outcome(s, false)
    ensures Layout(s, s.lastMeasuredWidth, wrapContent) == Outcome(s, false)
  {
  }

  /** What a real layout pass does: it records the width, trims exactly the
      tabs narrower than the available text width (in fill mode, with text),
      gives every tab it does not trim `actualWidth == width`, and defers the
      indicator recompute exactly when the strip had been laid out before;
      on a first layout it recomputes the indicator at once, as a live
      update at the stored position. */
  lemma LayoutEffect(s: StripState, width: int, wrapContent: bool, i: int)
    requires LaysOut(s, width) && 0 <= i < |s.items|
    ensures var r := Layout(s, width, wrapContent).state;
      var avail := r.commonItemWidth - 2 * s.textPadding;
      && r.lastMeasuredWidth == width
      && r.commonItemWidth == CommonItemWidth(width, |s.items|, s.maxItemWidth, s.fitsParentWidth)
      && |r.items| == |s.items|
      && r.items[i].width == s.items[i].width && r.items[i].item == s.items[i].item
      && (r.items[i].layout.Ellipsized? <==> !wrapContent && s.items[i].width < avail && s.items[i].item.text.Some?)
      && (wrapContent || s.items[i].width >= avail || s.items[i].item.text.None? ==> r.items[i].actualWidth == s.items[i].width)
      && (s.lastMeasuredWidth != 0 ==> r.recalcPending && r.reporting == s.reporting)
      && (s.lastMeasuredWidth == 0 ==> r.recalcPending == s.recalcPending)
    ensures s.lastMeasuredWidth != 0 ==>
      Layout(s, width, wrapContent) == Outcome(Fitted(s, width, wrapContent).(recalcPending := true), false)
    ensures s.lastMeasuredWidth == 0 ==>
      Layout(s, width, wrapContent) == Recalc(Fitted(s, width, wrapContent), s.selectionFactor, true)
  {
    var common := CommonItemWidth(width, |s.items|, s.maxItemWidth, s.fitsParentWidth);
    FitCases(s.items[i], common - s.textPadding * 2, wrapContent, s.metrics);
  }

  /** Laying out twice for the same width is the same as once. */
  lemma LayoutIdempotent(s: StripState, width: int, wrapContent: bool)
    ensures var r := Layout(s, width, wrapContent).state;
      Layout(r, width, wrapContent) == Outcome(r, false)
  {
    if LaysOut(s, width) && |s.items| > 0 {
      var t := Fitted(s, width, wrapContent);
      assert Layout(s, width, wrapContent).state.lastMeasuredWidth == t.lastMeasuredWidth == width;
    }
  }

  /** The deferred recompute catches up: a later layout followed by the
      posted recompute ends exactly where a first layout, which recomputes at
      once, would have ended. */
  lemma DeferredRecalcCatchesUp(s: StripState, width: int, wrapContent: bool)
    requires LaysOut(s, width) && |s.items| > 0 && s.lastMeasuredWidth != 0 && !s.recalcPending
    ensures FirePendingRecalc(Layout(s, width, wrapContent).state)
         == Recalc(Fitted(s, width, wrapContent), s.selectionFactor, true)
  {
    var t := Fitted(s, width, wrapContent);
    assert Layout(s, width, wrapContent).state == t.(recalcPending := true);
    assert t.(recalcPending := true).(recalcPending := false) == t;
  }

  /** The posted recompute does nothing unless one is pending; then it clears
      the pending mark and runs one live recompute at the stored position.
      Either way nothing is left pending, so firing again does nothing. */
  lemma FirePendingRecalcEffect(s: StripState)
    ensures !s.recalcPending ==> FirePendingRecalc(s) == Outcome(s, false)
    ensures s.recalcPending ==>
      FirePendingRecalc(s) == Recalc(s.(recalcPending := false), s.selectionFactor, true)
    ensures !FirePendingRecalc(s).state.recalcPending
    ensures FirePendingRecalc(FirePendingRecalc(s).state) == Outcome(FirePendingRecalc(s).state, false)
  {
  }

  /** `onMeasure` lays the strip out for the measured width in fill mode and
      for its content width in wrap mode, whatever was measured; in wrap mode
      without a list it throws and changes nothing. */
  lemma MeasureEffect(s: StripState, measuredWidth: int)
    ensures !s.wrapContent ==> Measure(s, measuredWidth) == Layout(s, measuredWidth, false)
    ensures s.wrapContent && !s.itemsSet ==> Measure(s, measuredWidth) == Outcome(s, true)
    ensures s.wrapContent && s.itemsSet ==>
      Measure(s, measuredWidth) == Layout(s, SlotSum(s.items, s.textPadding), true)
    ensures s.wrapContent && s.itemsSet && WidthsInSync(s) ==>
      Measure(s, measuredWidth) == Layout(s, s.totalWidth, true)
  {
  }

  /** The indicator a live recompute stores is the geometry of the current
      tabs; in fill mode it is `trunc(f × slot)` wide `slot`. */
  lemma RecalcStoresGeometry(s: StripState, f: real)
    requires |s.items| > 0
    ensures var g := SelectionGeometry(PaddedActualWidths(s.items, s.textPadding), s.commonItemWidth, s.wrapContent, f);
      var r := Recalc(s, f, true);
      && r.failed == g.None?
      && (g.Some? ==> r.state.reporting.selectionLeft == g.value.left && r.state.reporting.selectionWidth == g.value.width)
      && (!s.wrapContent ==> !r.failed && r.state.reporting.selectionLeft == Trunc(Mul(f, s.commonItemWidth as real))
                             && r.state.reporting.selectionWidth == s.commonItemWidth)
  {
  }

  /** A recompute reports at most once, and it reports exactly when the
      geometry is defined, the gate allows it, a listener is set and the
      left, width or total factor differs from the last report; the report
      carries the first and last tab widths. */
  lemma RecalcReporting(s: StripState, f: real, update: bool)
    ensures var r := Recalc(s, f, update);
      var before := s.reporting;
      var after := r.state.reporting;
      && (after.notifications == before.notifications ||
          (&& |s.items| > 0 && !r.failed
           && CallListener(update, s.fromIndex, s.toIndex) && s.hasSelectionListener
           && |after.notifications| == |before.notifications| + 1
           && after.notifications[..|before.notifications|] == before.notifications
           && var c := after.notifications[|before.notifications|];
              && (c.left != before.lastCallLeft || c.width != before.lastCallWidth || c.totalFactor != before.lastCallFactor)
              && c.left == after.lastCallLeft && c.width == after.lastCallWidth && c.totalFactor == after.lastCallFactor
              && c.totalFactor == TotalFactor(f, |s.items|)
              && c.firstItemWidth == s.items[0].actualWidth && c.lastItemWidth == s.items[|s.items| - 1].actualWidth
              && c.animated == !update))
      && (!update ==> after.selectionLeft == before.selectionLeft && after.selectionWidth == before.selectionWidth)
    ensures var after := Recalc(s, f, update).state.reporting;
      && (|s.items| == 0 ==> after == s.reporting)
      && (|s.items| > 0 ==>
          var g := SelectionGeometry(PaddedActualWidths(s.items, s.textPadding), s.commonItemWidth, s.wrapContent, f);
          (after.notifications != s.reporting.notifications <==>
             && g.Some? && CallListener(update, s.fromIndex, s.toIndex) && s.hasSelectionListener
             && (g.value.left != s.reporting.lastCallLeft || g.value.width != s.reporting.lastCallWidth
                 || TotalFactor(f, |s.items|) != s.reporting.lastCallFactor)))
  {
    var r := Recalc(s, f, update);
    if r.state.reporting.notifications != s.reporting.notifications {
      assert r.state.reporting.notifications[..|s.reporting.notifications|] == s.reporting.notifications;
    }
  }

  /** Recomputing again with nothing changed reports nothing more. */
  lemma RecalcIdempotent(s: StripState, f: real, update: bool)
    ensures var r := Recalc(s, f, update).state;
      Recalc(r, f, update).state == r
  {
  }

  /** Landing exactly on the destination is what ends a transition. */
  lemma EndsTransitionIffLands(s: StripState, f: real)
    ensures EndsTransition(s, f) <==> s.toIndex != -1 && f == s.toIndex as real
  {
    if s.toIndex != -1 && f == s.toIndex as real {
      TruncOfInt(s.toIndex);
    }
  }

  /** `setSelectionFactor` to a new position stores it, ends the transition
      exactly when the position lands on its destination (keeping it
      otherwise), changes nothing but the position, the transition and the
      indicator and reporting fields, and then runs a live recompute at the
      new position; in fill mode the indicator lands on `trunc(f × slot)`. */
  lemma MoveSelectionEffect(s: StripState, f: real)
    ensures var r := MoveSelection(s, f);
      var lands := s.toIndex != -1 && f == s.toIndex as real;
      var t := s.(selectionFactor := f,
                  fromIndex := if lands then -1 else s.fromIndex,
                  toIndex := if lands then -1 else s.toIndex);
      && r == Recalc(t, f, true)
      && r.state == t.(reporting := r.state.reporting)
      && (|s.items| == 0 ==> r == Outcome(t, false))
      && (|s.items| > 0 && !s.wrapContent ==>
          && !r.failed
          && r.state.reporting.selectionLeft == Trunc(Mul(f, s.commonItemWidth as real))
          && r.state.reporting.selectionWidth == s.commonItemWidth)
  {
    EndsTransitionIffLands(s, f);
  }

  /** `setSelectionFactor` with the stored position changes nothing at all;
      with a new one it is `MoveSelection`, after which the same call changes
      nothing. */
  lemma SetSelectionFactorEffect(s: StripState, f: real)
    ensures s.selectionFactor == f ==> SetSelectionFactor(s, f) == Outcome(s, false)
    ensures s.selectionFactor != f ==> SetSelectionFactor(s, f) == MoveSelection(s, f)
    ensures SetSelectionFactor(s, f).state.selectionFactor == f
    ensures var r := SetSelectionFactor(s, f).state;
      SetSelectionFactor(r, f) == Outcome(r, false)
  {
  }

  /** While a jump over more than one tab is in progress, the live position
      updates on the way report nothing. */
  lemma FarJumpTicksAreSilent(s: StripState, f: real)
    requires s.fromIndex != -1 && s.toIndex != -1 && AbsInt(s.toIndex - s.fromIndex) > 1
    requires !EndsTransition(s, f)
    ensures var r := SetSelectionFactor(s, f).state.reporting;
      && r.notifications == s.reporting.notifications
      && r.lastCallLeft == s.reporting.lastCallLeft && r.lastCallWidth == s.reporting.lastCallWidth
      && r.lastCallFactor == s.reporting.lastCallFactor
    ensures SetSelectionFactor(s, f).state.fromIndex == s.fromIndex
    ensures SetSelectionFactor(s, f).state.toIndex == s.toIndex
  {
  }

  /** A far jump is reported once, by `setFromTo`: exactly when the
      destination's geometry is defined, a listener is set and it differs from
      the last report. The position update that finally lands on the
      destination finds its geometry already reported and stays silent. */
  lemma FarJumpSettlesOnce(s: StripState, fromIndex: int, toIndex: int)
    requires fromIndex != -1 && toIndex != -1 && AbsInt(toIndex - fromIndex) > 1
    requires s.selectionFactor != toIndex as real
    ensures var a := SetFromTo(s, fromIndex, toIndex).state;
      var b := SetSelectionFactor(a, toIndex as real).state;
      && (|s.items| == 0 ==> a.reporting.notifications == s.reporting.notifications)
      && (|s.items| > 0 ==>
          var g := SelectionGeometry(PaddedActualWidths(s.items, s.textPadding), s.commonItemWidth, s.wrapContent, toIndex as real);
          var rep := s.reporting;
          var reported := g.Some? && s.hasSelectionListener
            && (g.value.left != rep.lastCallLeft || g.value.width != rep.lastCallWidth
                || TotalFactor(toIndex as real, |s.items|) != rep.lastCallFactor);
          |a.reporting.notifications| == |rep.notifications| + (if reported then 1 else 0))
      && b.reporting.notifications == a.reporting.notifications
      && b.fromIndex == -1 && b.toIndex == -1
  {
    var f := toIndex as real;
    var a := SetFromTo(s, fromIndex, toIndex).state;
    TruncOfInt(toIndex);
    assert EndsTransition(a, f);
    var t := a.(selectionFactor := f, fromIndex := -1, toIndex := -1);
    assert SetSelectionFactor(a, f) == Recalc(t, f, true);
    if |s.items| > 0 {
      var g := SelectionGeometry(PaddedActualWidths(s.items, s.textPadding), s.commonItemWidth, s.wrapContent, f);
      if g.Some? {
        var tf := TotalFactor(f, |s.items|);
        assert CallListener(false, fromIndex, toIndex);
        assert s.hasSelectionListener ==>
          a.reporting.lastCallLeft == g.value.left && a.reporting.lastCallWidth == g.value.width
          && a.reporting.lastCallFactor == tf;
      }
    }
  }

  /** `setFromTo` with two different ends (or a cleared start) stores the
      pair and changes nothing else but the reporting fields; a recompute at
      the destination then reports it without moving the drawn indicator,
      and with no destination nothing is reported. */
  lemma SetFromToEffect(s: StripState, fromIndex: int, toIndex: int)
    requires fromIndex != toIndex || fromIndex == -1
    ensures var r := SetFromTo(s, fromIndex, toIndex);
      && r.state == s.(fromIndex := fromIndex, toIndex := toIndex, reporting := r.state.reporting)
      && r.state.reporting.selectionLeft == s.reporting.selectionLeft
      && r.state.reporting.selectionWidth == s.reporting.selectionWidth
      && (toIndex == -1 ==> r == Outcome(s.(fromIndex := fromIndex, toIndex := toIndex), false))
      && (toIndex != -1 ==> r == Recalc(s.(fromIndex := fromIndex, toIndex := toIndex), toIndex as real, false))
  {
    if toIndex != -1 {
      RecalcReporting(s.(fromIndex := fromIndex, toIndex := toIndex), toIndex as real, false);
    }
  }

  /** `setFromTo(i, i)` with a real index is ignored. */
  lemma SetFromToSameIgnored(s: StripState, i: int)
    requires i != -1
    ensures SetFromTo(s, i, i) == Outcome(s, false)
  {
  }

  /** In a fill-mode strip that has been laid out, every touch view takes
      one slot at `slot × index`, and consistently indexed views tile the
      width without overlap. */
  lemma FillModeViewsTile(s: StripState, position: int, specWidth: int)
    requires Invariant(s) && !s.wrapContent && 0 <= position < |s.views|
    requires s.views == Range(|s.items|) && specWidth >= 0 && s.maxItemWidth >= 0
    ensures var slot := CommonItemWidth(specWidth, |s.items|, s.maxItemWidth, s.fitsParentWidth);
      && MeasureView(s, position, false, specWidth) == Some(Placement(slot * position, slot))
      && 0 <= slot * position && slot * position + slot <= specWidth
  {
    FillViewsTile(PaddedWidths(s.items, s.textPadding), position, |s.items|, specWidth, s.maxItemWidth, s.fitsParentWidth);
  }
}
