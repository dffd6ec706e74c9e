/** `ViewPagerTopView` as an object whose fields its methods update in place.
    Each method is proved to leave the object in the state the matching
    transition of `Strip` describes, so every property proved there holds for
    the object too. */
module TopView {
  import opened Util
  import opened Items
  import opened Geometry
  import opened Strip

  class ViewPagerTopView {
    const metrics: Metrics

    /** False while the item list is still `null`. */
    var itemsSet: bool
    var items: seq<Slot>
    /** The `index` field of each `BackgroundView` child, in child order. */
    var viewIndices: seq<int>
    var totalWidth: int
    var maxItemWidth: int
    var textPadding: int
    var fitsParentWidth: bool
    /** Whether the layout parameters ask for `WRAP_CONTENT`. */
    var wrapContent: bool
    var lastMeasuredWidth: int
    var commonItemWidth: int
    var selectionFactor: real
    var fromIndex: int
    var toIndex: int
    var hasSelectionListener: bool
    /** A deferred indicator recompute has been posted and not yet run. */
    var recalcPending: bool
    var selectionLeft: int
    var selectionWidth: int
    var lastCallSelectionLeft: int
    var lastCallSelectionWidth: int
    var lastCallSelectionFactor: real
    /** Every call made to the selection change listener, oldest first. */
    var notifications: seq<SelectionChange>

    /** The indicator and reporting fields as a `Strip.Reporting`. */
    function Reported(): Reporting
      reads this
    {
      Reporting(selectionLeft, selectionWidth, lastCallSelectionLeft, lastCallSelectionWidth,
                lastCallSelectionFactor, notifications)
    }

    /** The object's fields as a `Strip.StripState`. */
    function View(): StripState
      reads this
    {
      StripState(metrics, itemsSet, items, viewIndices, totalWidth, maxItemWidth, textPadding,
                 fitsParentWidth, wrapContent, lastMeasuredWidth, commonItemWidth, selectionFactor,
                 fromIndex, toIndex, hasSelectionListener, recalcPending, Reported())
    }

    ghost predicate Valid()
      reads this
    {
      Invariant(View())
    }

    /** A new strip with the given text padding, sizing mode and listener. */
    constructor(m: Metrics, padding: int, wrap: bool, listener: bool)
      ensures View() == Initial(m, padding, wrap, listener) && Valid()
    {
      metrics := m;
      itemsSet := false;
      items := [];
      viewIndices := [];
      totalWidth := 0;
      maxItemWidth := 0;
      textPadding := padding;
      fitsParentWidth := false;
      wrapContent := wrap;
      lastMeasuredWidth := 0;
      commonItemWidth := 0;
      selectionFactor := 0.0;
      fromIndex := -1;
      toIndex := -1;
      hasSelectionListener := listener;
      recalcPending := false;
      selectionLeft := 0;
      selectionWidth := 0;
      lastCallSelectionLeft := 0;
      lastCallSelectionWidth := 0;
      lastCallSelectionFactor := 0.0;
      notifications := [];
    }

    method SetTextPadding(padding: int)
      modifies this`textPadding
      ensures View() == old(View()).(textPadding := padding)
      ensures old(Valid()) ==> Valid()
    {
      textPadding := padding;
    }

    method SetFitsParentWidth(fits: bool)
      modifies this`fitsParentWidth
      ensures View() == old(View()).(fitsParentWidth := fits)
      ensures old(Valid()) ==> Valid()
    {
      fitsParentWidth := fits;
    }

    method SetSelectionChangeListener(present: bool)
      modifies this`hasSelectionListener
      ensures View() == old(View()).(hasSelectionListener := present)
      ensures old(Valid()) ==> Valid()
    {
      hasSelectionListener := present;
    }

    /** The comparison loop of `setItems`: stops at the first tab that is not
        `equals` to the new list's. */
    method SameAsCurrent(list: seq<Item>) returns (same: bool)
      requires |list| == |items|
      ensures same == SameItems(list, ItemsOf(items))
    {
      var i := 0;
      while i < |list|
        invariant 0 <= i <= |list|
        invariant forall j :: 0 <= j < i ==> Equals(list[j], items[j].item)
      {
        if !Equals(list[i], items[i].item) {
          return false;
        }
        i := i + 1;
      }
      return true;
    }

    /** The measuring loop of `setItems`: a measured tab per item, their
        padded width sum and the touch view indices `0 .. n-1`. */
    method MeasureItems(list: seq<Item>) returns (slots: seq<Slot>, total: int, indices: seq<int>)
      ensures slots == NewSlots(list, metrics)
      ensures total == SlotSum(slots, textPadding)
      ensures indices == Range(|list|)
    {
      slots := [];
      total := 0;
      indices := [];
      var i := 0;
      while i < |list|
        invariant 0 <= i <= |list|
        invariant slots == NewSlots(list[..i], metrics)
        invariant total == SlotSum(slots, textPadding)
        invariant indices == Range(i)
      {
        var slot := NewSlot(list[i], metrics);
        SlotSumPush(slots, slot, textPadding);
        assert list[..i + 1] == list[..i] + [list[i]];
        slots := slots + [slot];
        total := total + slot.width + textPadding * 2;
        indices := indices + [i];
        i := i + 1;
      }
      assert list[..i] == list;
    }

    /** The replacing half of `setItems`. */
    method ReplaceAllItems(list: seq<Item>)
      modifies this`itemsSet, this`items, this`viewIndices, this`totalWidth, this`lastMeasuredWidth, this`maxItemWidth
      ensures View() == Rebuild(old(View()), list)
    {
      ghost var r := Rebuild(View(), list);
      StoreItems(list);
      assert r.items == items && r.views == viewIndices && r.itemsSet == itemsSet;
      assert r.totalWidth == totalWidth && r.maxItemWidth == maxItemWidth && r.lastMeasuredWidth == lastMeasuredWidth;
      assert r.reporting == Reported();
    }

    method StoreItems(list: seq<Item>)
      modifies this`itemsSet, this`items, this`viewIndices, this`totalWidth, this`lastMeasuredWidth, this`maxItemWidth
      ensures itemsSet && items == NewSlots(list, metrics) && viewIndices == Range(|list|)
      ensures totalWidth == SlotSum(items, textPadding) && lastMeasuredWidth == 0
      ensures maxItemWidth == MeanWidth(totalWidth, |list|)
    {
      var slots, total, indices := MeasureItems(list);
      itemsSet := true;
      items := slots;
      viewIndices := indices;
      totalWidth := total;
      lastMeasuredWidth := 0;
      maxItemWidth := if |list| == 0 then 0 else JavaDiv(total, |list|);
    }

    method SetItems(list: seq<Item>)
      modifies this`itemsSet, this`items, this`viewIndices, this`totalWidth, this`lastMeasuredWidth, this`maxItemWidth
      ensures View() == Strip.SetItems(old(View()), list)
      ensures old(Valid()) ==> Valid()
    {
      var same := false;
      if itemsSet && |items| == |list| {
        same := SameAsCurrent(list);
      }
      assert same == (itemsSet && SameItems(list, ItemsOf(items)));
      if !same {
        ReplaceAllItems(list);
      }
    }

    /** The shared tail of `setItemAt`: swap the tab in and update the width
        sum and mean. */
    method ReplaceSlotAt(index: int, slot: Slot)
      requires 0 <= index < |items|
      modifies this`items, this`totalWidth, this`maxItemWidth, this`lastMeasuredWidth
      ensures View() == ReplaceSlot(old(View()), index, slot)
    {
      var previous := items[index];
      items := items[index := slot];
      totalWidth := totalWidth - (previous.width + textPadding * 2);
      totalWidth := totalWidth + (slot.width + textPadding * 2);
      maxItemWidth := JavaDiv(totalWidth, |items|);
      lastMeasuredWidth := 0;
    }

    method SetItemAt(index: int, item: Item) returns (failed: bool)
      modifies this`items, this`totalWidth, this`maxItemWidth, this`lastMeasuredWidth
      ensures View() == Strip.SetItemAt(old(View()), index, item).state
      ensures old(Valid()) ==> Valid()
      ensures failed == Strip.SetItemAt(old(View()), index, item).failed
    {
      if !(0 <= index < |items|) {
        return true;
      }
      ReplaceSlotAt(index, NewSlot(item, metrics));
      return false;
    }

    method RequestItemLayoutAt(index: int) returns (failed: bool)
      modifies this`items, this`totalWidth, this`maxItemWidth, this`lastMeasuredWidth
      ensures View() == Strip.RequestItemLayoutAt(old(View()), index).state
      ensures old(Valid()) ==> Valid()
      ensures failed == Strip.RequestItemLayoutAt(old(View()), index).failed
    {
      if !itemsSet {
        return true;
      }
      if 0 <= index < |items| {
        ReplaceSlotAt(index, Remeasure(items[index], metrics));
      }
      return false;
    }

    method SetItemTranslationX(index: int, x: int) returns (failed: bool)
      modifies this`items
      ensures View() == Strip.SetItemTranslationX(old(View()), index, x).state
      ensures old(Valid()) ==> Valid()
      ensures failed == Strip.SetItemTranslationX(old(View()), index, x).failed
    {
      if !itemsSet {
        return true;
      }
      if index < |items| {
        if index < 0 {
          return true;
        }
        items := items[index := items[index].(translationX := x)];
      }
      return false;
    }

    method AddItemAtIndex(item: Item, index: int) returns (failed: bool)
      modifies this`items, this`totalWidth, this`maxItemWidth, this`commonItemWidth,
               this`selectionFactor, this`viewIndices
      ensures View() == Strip.AddItemAtIndex(old(View()), item, index).state
      ensures old(Valid()) ==> Valid()
      ensures failed == Strip.AddItemAtIndex(old(View()), item, index).failed
    {
      if !itemsSet {
        return true;
      }
      var idx := if index == -1 then |items| else index;
      if !(0 <= idx <= |items|) {
        return true;
      }
      InsertItemAt(item, idx);
      return false;
    }

    /** The inserting half of `addItemAtIndex`. */
    method InsertItemAt(item: Item, idx: int)
      requires itemsSet && 0 <= idx <= |items|
      modifies this`items, this`totalWidth, this`maxItemWidth, this`commonItemWidth,
               this`selectionFactor, this`viewIndices
      ensures View() == InsertItem(old(View()), item, idx)
    {
      ghost var s0 := View();
      ghost var r := InsertItem(s0, item, idx);
      InsertSlot(item, idx);
      assert r.items == items && r.views == viewIndices;
      assert r.totalWidth == totalWidth && r.maxItemWidth == maxItemWidth;
      assert r.commonItemWidth == commonItemWidth && r.selectionFactor == selectionFactor;
      assert r.reporting == Reported();
    }

    method InsertSlot(item: Item, idx: int)
      requires itemsSet && 0 <= idx <= |items|
      modifies this`items, this`totalWidth, this`maxItemWidth, this`commonItemWidth,
               this`selectionFactor, this`viewIndices
      ensures var slot := NewSlot(item, metrics);
        && totalWidth == old(totalWidth) + (slot.width + textPadding * 2)
        && maxItemWidth == JavaDiv(totalWidth, |old(items)| + 1)
        && commonItemWidth == CommonItemWidth(slot.width, |old(items)| + 1, maxItemWidth, fitsParentWidth)
        && selectionFactor == (if idx <= Trunc(old(selectionFactor)) then old(selectionFactor) + 1.0 else old(selectionFactor))
        && items == old(items)[..idx] + [Fit(slot, commonItemWidth - textPadding * 2, wrapContent, metrics)] + old(items)[idx..]
        && viewIndices == old(viewIndices) + [|old(items)|]
    {
      var slot := NewSlot(item, metrics);
      var width := slot.width;
      var n := |items| + 1;
      totalWidth := totalWidth + (width + textPadding * 2);
      maxItemWidth := JavaDiv(totalWidth, n);
      commonItemWidth := CommonItemWidth(width, n, maxItemWidth, fitsParentWidth);
      if idx <= Trunc(selectionFactor) {
        selectionFactor := selectionFactor + 1.0;
      }
      var availTextWidth := commonItemWidth - textPadding * 2;
      if !wrapContent && width < availTextWidth {
        slot := Trim(slot, availTextWidth, metrics);
      } else {
        slot := Untrim(slot);
      }
      items := items[..idx] + [slot] + items[idx..];
      viewIndices := viewIndices + [n - 1];
    }

    method RemoveItemAt(index: int) returns (failed: bool)
      requires Valid()
      modifies this`items, this`selectionFactor, this`viewIndices
      ensures View() == Strip.RemoveItemAt(old(View()), index).state
      ensures Valid()
      ensures failed == Strip.RemoveItemAt(old(View()), index).failed
    {
      if index < 0 || index >= |items| {
        return true;
      }
      items := items[..index] + items[index + 1..];
      if Trunc(selectionFactor) >= |items| {
        selectionFactor := selectionFactor - 1.0;
      }
      viewIndices := viewIndices[..index] + viewIndices[index + 1..];
      return false;
    }

    method RemoveLastItem() returns (failed: bool)
      requires Valid()
      modifies this`items, this`selectionFactor, this`viewIndices
      ensures View() == Strip.RemoveLastItem(old(View())).state
      ensures Valid()
      ensures failed == Strip.RemoveLastItem(old(View())).failed
    {
      if !itemsSet {
        return true;
      }
      if |items| != 0 {
        failed := RemoveItemAt(|items| - 1);
      } else {
        failed := false;
      }
    }

    /** The geometry loop of `recalculateSelection`: in wrap mode the prefix
        sum of the padded actual widths before the selected tab plus the
        interpolated part of that tab; `ok` is false where the source reads
        past the list. */
    method ComputeSelection(f: real) returns (ok: bool, left: int, width: int)
      requires |items| > 0
      ensures var g := SelectionGeometry(PaddedActualWidths(items, textPadding), commonItemWidth, wrapContent, f);
        ok == g.Some? && (ok ==> left == g.value.left && width == g.value.width)
    {
      if !wrapContent {
        return true, Trunc(Mul(f, commonItemWidth as real)), commonItemWidth;
      }
      ghost var ws := PaddedActualWidths(items, textPadding);
      var n := |items|;
      var k := Trunc(f);
      var remain := f - k as real;
      if remain == 0.0 {
        var selectionIndex := Max(0, Min(n - 1, k));
        width := items[selectionIndex].actualWidth + textPadding * 2;
      } else {
        if k < 0 || k + 1 >= n {
          return false, 0, 0;
        }
        var fromWidth := items[k].actualWidth + textPadding * 2;
        var toWidth := items[k + 1].actualWidth + textPadding * 2;
        width := fromWidth + Part(toWidth - fromWidth, remain);
      }
      left := 0;
      var i := 0;
      while i < k
        invariant 0 <= i <= n
        invariant i == 0 || i <= k
        invariant remain != 0.0 ==> 0 <= k && k + 1 < n
        invariant left == Sum(ws[..i])
      {
        if i >= n {
          return false, 0, 0;
        }
        PrefixStep(ws, i);
        left := left + items[i].actualWidth + textPadding * 2;
        i := i + 1;
      }
      if remain != 0.0 {
        left := left + Part(items[k].actualWidth + textPadding * 2, remain);
      }
      ok := true;
    }

    method RecalculateSelection(f: real, update: bool) returns (failed: bool)
      modifies this`selectionLeft, this`selectionWidth, this`lastCallSelectionLeft,
               this`lastCallSelectionWidth, this`lastCallSelectionFactor, this`notifications
      ensures View() == Recalc(old(View()), f, update).state
      ensures old(Valid()) ==> Valid()
      ensures failed == Recalc(old(View()), f, update).failed
    {
      if |items| == 0 {
        return false;
      }
      failed := RecalculateNonEmpty(f, update);
    }

    /** `recalculateSelection` on a strip with at least one tab. */
    method RecalculateNonEmpty(f: real, update: bool) returns (failed: bool)
      requires |items| > 0
      modifies this`selectionLeft, this`selectionWidth, this`lastCallSelectionLeft,
               this`lastCallSelectionWidth, this`lastCallSelectionFactor, this`notifications
      ensures View() == Recalc(old(View()), f, update).state
      ensures failed == Recalc(old(View()), f, update).failed
    {
      var ok, left, width := ComputeSelection(f);
      if !ok {
        return true;
      }
      StoreSelection(left, width, f, update);
      return false;
    }

    /** The storing and reporting half of `recalculateSelection`. */
    method StoreSelection(left: int, width: int, f: real, update: bool)
      requires |items| > 0
      modifies this`selectionLeft, this`selectionWidth, this`lastCallSelectionLeft,
               this`lastCallSelectionWidth, this`lastCallSelectionFactor, this`notifications
      ensures Reported() == Report(old(View()), Rect(left, width), f, update)
    {
      var callListener;
      if update {
        selectionLeft := left;
        selectionWidth := width;
        callListener := (fromIndex == -1 && toIndex == -1)
          || (fromIndex != -1 && toIndex != -1 && AbsInt(toIndex - fromIndex) == 1);
      } else {
        callListener := fromIndex != -1 && toIndex != -1 && AbsInt(toIndex - fromIndex) > 1;
      }
      var totalFactor := if |items| > 1 then f / (|items| - 1) as real else 0.0;
      if callListener && hasSelectionListener
        && (lastCallSelectionLeft != left || lastCallSelectionWidth != width || lastCallSelectionFactor != totalFactor)
      {
        lastCallSelectionLeft := left;
        lastCallSelectionWidth := width;
        lastCallSelectionFactor := totalFactor;
        notifications := notifications + [SelectionChange(left, width, items[0].actualWidth,
                                                          items[|items| - 1].actualWidth, totalFactor, !update)];
      }
    }

    method Layout(width: int, wrap: bool) returns (failed: bool)
      modifies this`lastMeasuredWidth, this`commonItemWidth, this`items, this`recalcPending,
               this`selectionLeft, this`selectionWidth, this`lastCallSelectionLeft,
               this`lastCallSelectionWidth, this`lastCallSelectionFactor, this`notifications
      ensures View() == Strip.Layout(old(View()), width, wrap).state
      ensures old(Valid()) ==> Valid()
      ensures failed == Strip.Layout(old(View()), width, wrap).failed
    {
      if width == 0 || lastMeasuredWidth == width || !itemsSet {
        return false;
      }
      if |items| == 0 {
        lastMeasuredWidth := width;
        return true;
      }
      failed := LayoutItems(width, wrap);
    }

    /** The pass of `layout` over a non-empty list of tabs. */
    method LayoutItems(width: int, wrap: bool) returns (failed: bool)
      requires |items| > 0
      modifies this`lastMeasuredWidth, this`commonItemWidth, this`items, this`recalcPending,
               this`selectionLeft, this`selectionWidth, this`lastCallSelectionLeft,
               this`lastCallSelectionWidth, this`lastCallSelectionFactor, this`notifications
      ensures View() == Strip.LayoutItems(old(View()), width, wrap).state
      ensures old(Valid()) ==> Valid()
      ensures failed == Strip.LayoutItems(old(View()), width, wrap).failed
    {
      var relayout := lastMeasuredWidth != 0;
      FitItems(width, wrap);
      if relayout {
        recalcPending := true;
        return false;
      }
      failed := RecalculateSelection(selectionFactor, true);
    }

    /** The trimming pass of `layout`. */
    method FitItems(width: int, wrap: bool)
      requires |items| > 0
      modifies this`lastMeasuredWidth, this`commonItemWidth, this`items
      ensures View() == Fitted(old(View()), width, wrap)
    {
      ghost var r := Fitted(View(), width, wrap);
      FitSlots(width, wrap);
      assert r.items == items && r.commonItemWidth == commonItemWidth && r.lastMeasuredWidth == lastMeasuredWidth;
      assert r.reporting == Reported();
    }

    method FitSlots(width: int, wrap: bool)
      requires |items| > 0
      modifies this`lastMeasuredWidth, this`commonItemWidth, this`items
      ensures lastMeasuredWidth == width
      ensures commonItemWidth == CommonItemWidth(width, |old(items)|, maxItemWidth, fitsParentWidth)
      ensures items == FitAll(old(items), commonItemWidth - textPadding * 2, wrap, metrics)
    {
      lastMeasuredWidth := width;
      commonItemWidth := CommonItemWidth(width, |items|, maxItemWidth, fitsParentWidth);
      var availTextWidth := commonItemWidth - textPadding * 2;
      var fitted := items;
      var i := 0;
      while i < |fitted|
        invariant 0 <= i <= |fitted| == |items|
        invariant forall j :: 0 <= j < i ==> fitted[j] == Fit(items[j], availTextWidth, wrap, metrics)
        invariant forall j :: i <= j < |fitted| ==> fitted[j] == items[j]
        modifies {}
      {
        var slot := fitted[i];
        fitted := fitted[i := if !wrap && slot.width < availTextWidth then Trim(slot, availTextWidth, metrics) else Untrim(slot)];
        i := i + 1;
      }
      items := fitted;
    }

    /** `getTotalWidth`. */
    method ContentWidth() returns (sum: int)
      ensures sum == SumWidths(items)
    {
      sum := 0;
      var i := 0;
      while i < |items|
        invariant 0 <= i <= |items|
        invariant sum == SlotSum(items[..i], 0)
      {
        SlotSumPush(items[..i], items[i], 0);
        assert items[..i + 1] == items[..i] + [items[i]];
        sum := sum + items[i].width;
        i := i + 1;
      }
      assert items[..i] == items;
      SlotSumSplit(items, 0);
    }

    method Measure(measuredWidth: int) returns (failed: bool)
      modifies this`lastMeasuredWidth, this`commonItemWidth, this`items, this`recalcPending,
               this`selectionLeft, this`selectionWidth, this`lastCallSelectionLeft,
               this`lastCallSelectionWidth, this`lastCallSelectionFactor, this`notifications
      ensures View() == Strip.Measure(old(View()), measuredWidth).state
      ensures old(Valid()) ==> Valid()
      ensures failed == Strip.Measure(old(View()), measuredWidth).failed
    {
      if wrapContent {
        if !itemsSet {
          return true;
        }
        var sum := ContentWidth();
        failed := Layout(textPadding * 2 * |items| + sum, true);
      } else {
        failed := Layout(measuredWidth, false);
      }
    }

    /** The posted recompute running. */
    method FirePendingRecalc() returns (failed: bool)
      modifies this`recalcPending, this`selectionLeft, this`selectionWidth, this`lastCallSelectionLeft,
               this`lastCallSelectionWidth, this`lastCallSelectionFactor, this`notifications
      ensures View() == Strip.FirePendingRecalc(old(View())).state
      ensures old(Valid()) ==> Valid()
      ensures failed == Strip.FirePendingRecalc(old(View())).failed
    {
      if !recalcPending {
        return false;
      }
      recalcPending := false;
      failed := RecalculateSelection(selectionFactor, true);
    }

    method SetSelectionFactor(f: real) returns (failed: bool)
      modifies this`selectionFactor, this`fromIndex, this`toIndex,
               this`selectionLeft, this`selectionWidth, this`lastCallSelectionLeft,
               this`lastCallSelectionWidth, this`lastCallSelectionFactor, this`notifications
      ensures View() == Strip.SetSelectionFactor(old(View()), f).state
      ensures old(Valid()) ==> Valid()
      ensures failed == Strip.SetSelectionFactor(old(View()), f).failed
    {
      if selectionFactor == f {
        return false;
      }
      failed := MoveSelection(f);
    }

    /** `setSelectionFactor` for a position that differs from the stored one. */
    method MoveSelection(f: real) returns (failed: bool)
      modifies this`selectionFactor, this`fromIndex, this`toIndex,
               this`selectionLeft, this`selectionWidth, this`lastCallSelectionLeft,
               this`lastCallSelectionWidth, this`lastCallSelectionFactor, this`notifications
      ensures View() == Strip.MoveSelection(old(View()), f).state
      ensures old(Valid()) ==> Valid()
      ensures failed == Strip.MoveSelection(old(View()), f).failed
    {
      ghost var clear := EndsTransition(View(), f);
      ghost var t := View().(selectionFactor := f,
                             fromIndex := if clear then -1 else fromIndex,
                             toIndex := if clear then -1 else toIndex);
      selectionFactor := f;
      if toIndex != -1 && Trunc(f) == toIndex && IsIntegral(f) {
        fromIndex := -1;
        toIndex := -1;
      }
      assert View() == t;
      failed := RecalculateSelection(selectionFactor, true);
    }

    method SetFromTo(from: int, to: int) returns (failed: bool)
      modifies this`fromIndex, this`toIndex,
               this`selectionLeft, this`selectionWidth, this`lastCallSelectionLeft,
               this`lastCallSelectionWidth, this`lastCallSelectionFactor, this`notifications
      ensures View() == Strip.SetFromTo(old(View()), from, to).state
      ensures old(Valid()) ==> Valid()
      ensures failed == Strip.SetFromTo(old(View()), from, to).failed
    {
      if from != to || from == -1 {
        fromIndex := from;
        toIndex := to;
        if to != -1 {
          failed := RecalculateSelection(to as real, false);
          return;
        }
      }
      failed := false;
    }

    /** `BackgroundView.onMeasure` for the child at `position`: its placement,
        or `None` where wrap mode reads a tab that is not there. */
    method MeasureView(position: int, rtl: bool, specWidth: int) returns (p: Option<Placement>)
      requires Valid() && 0 <= position < |viewIndices|
      ensures p == Strip.MeasureView(View(), position, rtl, specWidth)
    {
      var index := viewIndices[position];
      if !wrapContent {
        var itemWidth := CommonItemWidth(specWidth, |items|, maxItemWidth, fitsParentWidth);
        return Some(Placement(itemWidth * index, itemWidth));
      }
      ghost var ws := PaddedWidths(items, textPadding);
      var left := 0;
      var i := 0;
      while i < index
        invariant 0 <= i <= |items| && (i == 0 || i <= index)
        invariant left == Sum(ws[..i])
      {
        if i >= |items| {
          return None;
        }
        PrefixStep(ws, i);
        left := left + items[i].width + textPadding * 2;
        i := i + 1;
      }
      if !(0 <= index < |items|) {
        return None;
      }
      var itemWidth := items[index].width + textPadding * 2;
      if rtl {
        left := specWidth - left - itemWidth;
      }
      return Some(Placement(left, itemWidth));
    }
  }
}
