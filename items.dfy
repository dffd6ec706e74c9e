/** One tab of the strip (`ViewPagerTopView.Item`): what it shows, how wide it
    is, when two tabs count as the same, and the per-tab layout caches the
    strip keeps next to it. */
module Items {
  import opened Util

  /** The identity of a `Counter` object: two items share a counter exactly
      when they hold the same id. The counter's own state is never compared. */
  type CounterId = nat

  /** A tab's content. `iconRes == 0` means no icon; `staticWidth == -1`
      means no fixed width; `imageSize` is `imageReceiverSize` once an image
      receiver is bound to the tab (reaction tabs). */
  datatype Item = Item(
    text: Option<string>,
    iconRes: int,
    counter: Option<CounterId>,
    imageSize: Option<int>,
    hidden: bool,
    staticWidth: int,
    addWidth: int)

  const NoStaticWidth: int := -1

  /** `new Item(CharSequence)`. */
  function TextItem(s: string): Item {
    Item(Some(s), 0, None, None, false, NoStaticWidth, 0)
  }

  /** `new Item(int iconRes)`. */
  function IconItem(iconRes: int): Item {
    Item(None, iconRes, None, None, false, NoStaticWidth, 0)
  }

  /** The measurement services the width computation queries: text width
      (`U.measureEmojiText` with the tab's paint), counter widths
      (`Counter.getWidth`, `Counter.getScaledWidth(Screen.dp(6f))`), the width
      of an ellipsized layout for a given available width, and the two
      `Screen.dp` constants it adds. */
  datatype Metrics = Metrics(
    measureText: string -> real,
    counterWidth: CounterId -> real,
    counterScaledWidth: CounterId -> real,
    ellipsizedWidth: (string, int) -> int,
    dp6: int,
    dp24: int)

  /** The room taken by an icon drawn before a label. */
  function IconGap(it: Item, m: Metrics): int {
    if it.iconRes != 0 then m.dp24 + m.dp6 else 0
  }

  /** `Item.calculateWidth`: the first of static width, counter (with label,
      image, icon or bare), label, icon or nothing that applies, plus
      `addWidth`. */
  function CalculateWidth(it: Item, m: Metrics): (w: int)
    ensures it.staticWidth != NoStaticWidth ==> w == it.staticWidth + it.addWidth
    ensures it.staticWidth == NoStaticWidth && it.counter.None? && it.text.None? && it.iconRes == 0
      ==> w == it.addWidth
    ensures it.staticWidth == NoStaticWidth && it.counter.None? && it.text.Some?
      ==> w == Trunc(m.measureText(it.text.value)) + IconGap(it, m) + it.addWidth
    ensures it.staticWidth == NoStaticWidth && it.counter.None? && it.text.None? && it.iconRes != 0
      ==> w == m.dp24 + it.addWidth
    ensures it.staticWidth == NoStaticWidth && it.counter.Some? && it.text.Some?
      ==> w == Trunc(m.measureText(it.text.value) + m.counterScaledWidth(it.counter.value)) + IconGap(it, m) + it.addWidth
    ensures it.staticWidth == NoStaticWidth && it.counter.Some? && it.text.None? && it.imageSize.Some?
      ==> w == Trunc(m.counterWidth(it.counter.value)) + it.imageSize.value + it.addWidth
    ensures it.staticWidth == NoStaticWidth && it.counter.Some? && it.text.None? && it.imageSize.None? && it.iconRes != 0
      ==> w == m.dp24 + Trunc(m.counterScaledWidth(it.counter.value)) + it.addWidth
    ensures it.staticWidth == NoStaticWidth && it.counter.Some? && it.text.None? && it.imageSize.None? && it.iconRes == 0
      ==> w == Trunc(m.counterWidth(it.counter.value)) + m.dp6 + it.addWidth
  {
    var base :=
      if it.staticWidth != NoStaticWidth then it.staticWidth
      else if it.counter.Some? then
        var c := it.counter.value;
        if it.text.Some? then
          Trunc(m.measureText(it.text.value) + m.counterScaledWidth(c)) + IconGap(it, m)
        else if it.imageSize.Some? then Trunc(m.counterWidth(c)) + it.imageSize.value
        else if it.iconRes != 0 then m.dp24 + Trunc(m.counterScaledWidth(c))
        else Trunc(m.counterWidth(c)) + m.dp6
      else if it.text.Some? then Trunc(m.measureText(it.text.value)) + IconGap(it, m)
      else if it.iconRes != 0 then m.dp24
      else 0;
    base + it.addWidth
  }

  /** A static width hides the content: two tabs with the same static width
      and `addWidth` are equally wide whatever they show. */
  lemma StaticWidthOverridesContent(a: Item, b: Item, m: Metrics)
    requires a.staticWidth != NoStaticWidth && a.staticWidth == b.staticWidth
    requires a.addWidth == b.addWidth
    ensures CalculateWidth(a, m) == CalculateWidth(b, m)
  {
  }

  /** `addWidth` is added on top of whatever the content needs. */
  lemma AddWidthShifts(it: Item, d: int, m: Metrics)
    ensures CalculateWidth(it.(addWidth := it.addWidth + d), m) == CalculateWidth(it, m) + d
  {
  }

  /** The text as `equalsOrBothEmpty` sees it: a missing text and an empty
      one are the same. */
  function TextKey(t: Option<string>): string {
    if t.Some? then t.value else ""
  }

  predicate EqualsOrBothEmpty(a: Option<string>, b: Option<string>) {
    a == b || ((a.None? || a.value == "") && (b.None? || b.value == ""))
  }

  /** `Item.equals`: same icon, same text up to null-versus-empty, and the
      very same counter object. */
  predicate Equals(a: Item, b: Item)
  {
    a.iconRes == b.iconRes && EqualsOrBothEmpty(a.text, b.text) && a.counter == b.counter
  }

  /** Equality holds exactly when icon, normalised text and counter identity
      agree; nothing else about the tabs is looked at. */
  lemma EqualsCharacterized(a: Item, b: Item)
    ensures Equals(a, b) <==>
      (a.iconRes == b.iconRes && TextKey(a.text) == TextKey(b.text) && a.counter == b.counter)
  {
  }

  /** `Item.equals` is an equivalence relation. */
  lemma EqualsIsEquivalence(a: Item, b: Item, c: Item)
    ensures Equals(a, a)
    ensures Equals(a, b) ==> Equals(b, a)
    ensures Equals(a, b) && Equals(b, c) ==> Equals(a, c)
  {
    EqualsCharacterized(a, b);
    EqualsCharacterized(b, c);
    EqualsCharacterized(a, c);
  }

  /** Two lists are index-wise equal in the sense `setItems` checks. */
  predicate SameItems(xs: seq<Item>, ys: seq<Item>) {
    |xs| == |ys| && forall i :: 0 <= i < |xs| ==> Equals(xs[i], ys[i])
  }

  /** The text layout cached for a tab: none (no text), an ellipsized layout
      made for a given available width, or the full text. */
  datatype TextLayout = NoLayout | Ellipsized(availWidth: int) | FullText

  /** A tab in the strip with the caches `Item` keeps in place: the computed
      `width`, the `actualWidth` after trimming, the text layout and the
      drawing offset `translationX`. */
  datatype Slot = Slot(item: Item, width: int, actualWidth: int, layout: TextLayout, translationX: int)

  /** A freshly created `Item` just after `calculateWidth`. */
  function NewSlot(it: Item, m: Metrics): (s: Slot)
    ensures s.item == it && s.width == CalculateWidth(it, m)
    ensures s.actualWidth == 0 && s.layout == NoLayout && s.translationX == 0
  {
    Slot(it, CalculateWidth(it, m), 0, NoLayout, 0)
  }

  /** `calculateWidth` run again on a tab already in the strip: only the
      cached width changes. */
  function Remeasure(s: Slot, m: Metrics): (r: Slot)
    ensures r == s.(width := CalculateWidth(s.item, m))
  {
    s.(width := CalculateWidth(s.item, m))
  }

  /** `Item.trimString(availWidth)`. */
  function Trim(s: Slot, availWidth: int, m: Metrics): (r: Slot)
    ensures r.item == s.item && r.width == s.width && r.translationX == s.translationX
    ensures s.item.text.Some? ==>
      r.layout == Ellipsized(availWidth) && r.actualWidth == m.ellipsizedWidth(s.item.text.value, availWidth)
    ensures s.item.text.None? ==> r.layout == NoLayout && r.actualWidth == s.width
  {
    if s.item.text.Some? then
      s.(layout := Ellipsized(availWidth), actualWidth := m.ellipsizedWidth(s.item.text.value, availWidth))
    else
      s.(layout := NoLayout, actualWidth := s.width)
  }

  /** `Item.untrimString`. */
  function Untrim(s: Slot): (r: Slot)
    ensures r.item == s.item && r.width == s.width && r.translationX == s.translationX
    ensures r.actualWidth == s.width
    ensures r.layout == (if s.item.text.Some? then FullText else NoLayout)
  {
    s.(layout := if s.item.text.Some? then FullText else NoLayout, actualWidth := s.width)
  }

  /** The trimming decision `layout` and `addItemAtIndex` make for one tab:
      trim in fill mode when the tab is narrower than the available text
      width, otherwise show it in full. */
  function Fit(s: Slot, availWidth: int, wrapContent: bool, m: Metrics): (r: Slot)
    ensures r.item == s.item && r.width == s.width && r.translationX == s.translationX
  {
    if !wrapContent && s.width < availWidth then Trim(s, availWidth, m) else Untrim(s)
  }

  /** What `Fit` does: trimmed exactly below the threshold in fill mode; a tab
      without text always ends with `actualWidth == width`. */
  lemma FitCases(s: Slot, availWidth: int, wrapContent: bool, m: Metrics)
    ensures var r := Fit(s, availWidth, wrapContent, m);
      && r.item == s.item && r.width == s.width
      && (r.layout.Ellipsized? <==> (!wrapContent && s.width < availWidth && s.item.text.Some?))
      && (s.item.text.None? ==> r.actualWidth == s.width && r.layout == NoLayout)
      && (wrapContent || s.width >= availWidth ==> r.actualWidth == s.width)
  {
  }

  /** `totalWidth` as the strip maintains it: every tab's width plus the text
      padding on both sides. */
  function SlotSum(s: seq<Slot>, padding: int): int
  {
    if s == [] then 0 else s[0].width + 2 * padding + SlotSum(s[1..], padding)
  }

  /** `getTotalWidth`: the plain sum of the cached widths. */
  function SumWidths(s: seq<Slot>): int
  {
    if s == [] then 0 else s[0].width + SumWidths(s[1..])
  }

  lemma {:induction false} SlotSumAppend(s: seq<Slot>, t: seq<Slot>, padding: int)
    ensures SlotSum(s + t, padding) == SlotSum(s, padding) + SlotSum(t, padding)
  {
    if s == [] {
      assert s + t == t;
    } else {
      assert (s + t)[1..] == s[1..] + t;
      SlotSumAppend(s[1..], t, padding);
    }
  }

  /** The padded sum is the plain sum plus the padding of every tab, which is
      what `onMeasure` uses as the wrap-mode width. */
  lemma {:induction false} SlotSumSplit(s: seq<Slot>, padding: int)
    ensures SlotSum(s, padding) == SumWidths(s) + 2 * padding * |s|
  {
    if s != [] {
      SlotSumSplit(s[1..], padding);
    }
  }

  /** Inserting a tab adds exactly its padded width to the sum. */
  lemma SlotSumInsert(s: seq<Slot>, i: int, x: Slot, padding: int)
    requires 0 <= i <= |s|
    ensures SlotSum(s[..i] + [x] + s[i..], padding) == SlotSum(s, padding) + x.width + 2 * padding
  {
    assert s == s[..i] + s[i..];
    SlotSumAppend(s[..i], s[i..], padding);
    SlotSumAppend(s[..i] + [x], s[i..], padding);
    SlotSumAppend(s[..i], [x], padding);
    assert SlotSum([x], padding) == x.width + 2 * padding;
  }

  /** Replacing a tab swaps its padded width in the sum for the new one's. */
  lemma SlotSumReplace(s: seq<Slot>, i: int, x: Slot, padding: int)
    requires 0 <= i < |s|
    ensures SlotSum(s[i := x], padding) == SlotSum(s, padding) - s[i].width + x.width
  {
    assert s == s[..i] + [s[i]] + s[i + 1..];
    assert s[i := x] == s[..i] + [x] + s[i + 1..];
    SlotSumAppend(s[..i] + [s[i]], s[i + 1..], padding);
    SlotSumAppend(s[..i] + [x], s[i + 1..], padding);
    SlotSumAppend(s[..i], [s[i]], padding);
    SlotSumAppend(s[..i], [x], padding);
    assert SlotSum([x], padding) == x.width + 2 * padding;
    assert SlotSum([s[i]], padding) == s[i].width + 2 * padding;
  }

  /** Appending a tab adds its padded width to the sum. */
  lemma SlotSumPush(s: seq<Slot>, x: Slot, padding: int)
    ensures SlotSum(s + [x], padding) == SlotSum(s, padding) + x.width + 2 * padding
  {
    SlotSumAppend(s, [x], padding);
    assert SlotSum([x], padding) == x.width + 2 * padding;
  }
}
