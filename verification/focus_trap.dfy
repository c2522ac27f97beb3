/** The keyboard side of the shortcut-menu modal: which element `show`
    focuses first, and how the keydown handler traps Tab inside the dialog
    and closes it on Escape.

    Elements are compared by identity, as the DOM does; an element is a
    value carrying an identity and whether it is the header's close button. */
module FocusTrap {
  import opened Wrappers
  import opened Sequences

  /** Key codes the handler compares against. */
  const TAB: nat := 9
  const ESC: nat := 27

  datatype Element = Element(id: nat, isCloseButton: bool)

  /** The first and last focusable elements recorded by `show`: both set
      or, before any non-empty `show`, both unset. */
  datatype Bounds = Unset | Bounds(first: Element, last: Element)

  /** The modal's focus state and its escape setting. */
  datatype Trap = Trap(bounds: Bounds, closeOnEsc: bool)

  datatype KeyEvent = KeyEvent(keyCode: nat, shiftKey: bool)

  /** What handling one keydown did: the element the handler leaves
      focused, before any default action of the browser, and which of
      `preventDefault`, `stopPropagation` and `hide` it called. */
  datatype KeyOutcome = KeyOutcome(focus: Element, preventDefault: bool,
                                   stopPropagation: bool, hideCalled: bool)

  /** What a Tab helper did: whether it prevented the default move, and
      the element focused afterwards. */
  datatype TabOutcome = TabOutcome(preventDefault: bool, focus: Element)

  /** `handleBackwardTab_`: Shift+Tab on the first element wraps to the last. */
  function HandleBackwardTab(b: Bounds, active: Element): (r: TabOutcome)
    // the default move is stopped exactly on the first element
    ensures r.preventDefault <==> b.Bounds? && active == b.first
    // and only then does focus move, to the last element
    ensures r.preventDefault ==> r.focus == b.last
    ensures !r.preventDefault ==> r.focus == active
  {
    if b.Bounds? && active == b.first then TabOutcome(true, b.last)
    else TabOutcome(false, active)
  }

  /** `handleForwardTab_`: Tab on the last element wraps to the first. */
  function HandleForwardTab(b: Bounds, active: Element): (r: TabOutcome)
    // the default move is stopped exactly on the last element
    ensures r.preventDefault <==> b.Bounds? && active == b.last
    // and only then does focus move, to the first element
    ensures r.preventDefault ==> r.focus == b.first
    ensures !r.preventDefault ==> r.focus == active
  {
    if b.Bounds? && active == b.last then TabOutcome(true, b.first)
    else TabOutcome(false, active)
  }

  /** `handleKeyDown_` on the modal container. */
  function HandleKeyDown(t: Trap, active: Element, e: KeyEvent): (r: KeyOutcome)
    // every path stops propagation; only Escape hides, and only when allowed
    ensures r.stopPropagation
    ensures r.hideCalled <==> e.keyCode == ESC && t.closeOnEsc
    // only Tab touches focus or the default action, and focus moves only
    // when the default is prevented, to one end of the recorded range
    ensures r.preventDefault ==> e.keyCode == TAB
    ensures r.focus != active ==>
              r.preventDefault && t.bounds.Bounds? && r.focus in {t.bounds.first, t.bounds.last}
    // nowhere to go: Tab is swallowed
    ensures e.keyCode == TAB && (t.bounds.Unset? || t.bounds.first == t.bounds.last) ==>
              r.preventDefault && r.focus == active
    // a real range: Tab is prevented exactly at the end it leaves from,
    // and then lands on the other end
    ensures e.keyCode == TAB && t.bounds.Bounds? && t.bounds.first != t.bounds.last ==>
              (r.preventDefault <==> active == (if e.shiftKey then t.bounds.first else t.bounds.last))
    ensures e.keyCode == TAB && t.bounds.Bounds? && t.bounds.first != t.bounds.last && r.preventDefault ==>
              r.focus == (if e.shiftKey then t.bounds.last else t.bounds.first)
  {
    if e.keyCode == TAB then
      if t.bounds.Unset? || t.bounds.first == t.bounds.last then
        KeyOutcome(active, true, true, false)
      else
        var tab := if e.shiftKey then HandleBackwardTab(t.bounds, active)
                   else HandleForwardTab(t.bounds, active);
        KeyOutcome(tab.focus, tab.preventDefault, true, false)
    else
      KeyOutcome(active, false, true, e.keyCode == ESC && t.closeOnEsc)
  }

  /** The focus state `show` leaves behind. */
  datatype Shown = Shown(bounds: Bounds, focus: Element)

  /** The focus part of `show`, given the focusable elements found in the
      dialog in document order. */
  function ShowFocus(previous: Bounds, active: Element, focusables: seq<Element>): (r: Shown)
    // nothing focusable: the old range and the focus stay as they were
    ensures |focusables| == 0 ==> r == Shown(previous, active)
    // otherwise the range spans the whole list ...
    ensures |focusables| > 0 ==>
              r.bounds == Bounds(focusables[0], focusables[|focusables| - 1])
    // ... focus goes to one of the first two elements ...
    ensures |focusables| > 0 ==> r.focus in focusables[..if |focusables| > 1 then 2 else 1]
    // ... skipping a leading close button whenever there is something else
    ensures |focusables| > 0 && r.focus != focusables[0] ==>
              focusables[0].isCloseButton && |focusables| > 1
    ensures |focusables| > 1 && focusables[0].isCloseButton ==> r.focus == focusables[1]
  {
    if |focusables| > 0 then
      var bounds := Bounds(focusables[0], focusables[|focusables| - 1]);
      if focusables[0].isCloseButton && |focusables| > 1 then Shown(bounds, focusables[1])
      else Shown(bounds, bounds.first)
    else Shown(previous, active)
  }

  /** The position of an element in a list. */
  function IndexOf(elements: seq<Element>, e: Element): (r: Option<nat>)
    ensures r.Some? ==> r.value < |elements| && elements[r.value] == e
    ensures r.None? ==> e !in elements
  {
    if |elements| == 0 then None
    else if elements[0] == e then Some(0)
    else match IndexOf(elements[1..], e)
      case Some(k) => Some(k + 1)
      case None => None
  }

  /** In a list without repeats an element's position is where it stands. */
  lemma IndexOfDistinct(elements: seq<Element>, k: nat)
    requires Distinct(elements) && k < |elements|
    ensures IndexOf(elements, elements[k]) == Some(k)
  {
    var r := IndexOf(elements, elements[k]);
    assert r.Some?;
  }

  /** The browser's own sequential navigation among the dialog's focusable
      elements when the handler does not prevent it: the neighbour in
      document order, or somewhere outside the list past either end. */
  function NativeTab(count: nat, index: nat, shiftKey: bool): Option<nat> {
    if shiftKey then (if index > 0 then Some(index - 1) else None)
    else if index + 1 < count then Some(index + 1) else None
  }

  /** Where focus ends up, as a position in the list, after Tab or
      Shift+Tab on the element at `index`. */
  function FocusAfterTab(focusables: seq<Element>, t: Trap, index: nat, shiftKey: bool): Option<nat>
    requires index < |focusables|
  {
    var r := HandleKeyDown(t, focusables[index], KeyEvent(TAB, shiftKey));
    if r.preventDefault then IndexOf(focusables, r.focus)
    else NativeTab(|focusables|, index, shiftKey)
  }

  /** The next position round the cycle of `count` positions, forwards or,
      with Shift, backwards. */
  function CycleStep(count: nat, index: nat, shiftKey: bool): nat
    requires index < count
  {
    if shiftKey then (if index == 0 then count - 1 else index - 1)
    else if index + 1 == count then 0 else index + 1
  }

  /** One Tab press with the range spanning the whole of a repeat-free list
      moves one step round the cycle. */
  lemma {:induction false} TabStepsRound(focusables: seq<Element>, t: Trap, index: nat, shiftKey: bool)
    requires Distinct(focusables) && index < |focusables|
    requires t.bounds == Bounds(focusables[0], focusables[|focusables| - 1])
    ensures FocusAfterTab(focusables, t, index, shiftKey) == Some(CycleStep(|focusables|, index, shiftKey))
  {
    var n := |focusables|;
    var r := HandleKeyDown(t, focusables[index], KeyEvent(TAB, shiftKey));
    IndexOfDistinct(focusables, 0);
    IndexOfDistinct(focusables, n - 1);
    if n > 1 {
      assert focusables[0] != focusables[n - 1];
      assert focusables[index] == focusables[0] <==> index == 0;
      assert focusables[index] == focusables[n - 1] <==> index == n - 1;
    }
  }

  /** After `show`, Tab and Shift+Tab cycle through the focusable elements
      and never leave them: forward from the last goes to the first, back
      from the first to the last, and a single element keeps focus. */
  lemma TabCycles(previous: Bounds, active: Element, focusables: seq<Element>,
                  closeOnEsc: bool, index: nat, shiftKey: bool)
    requires Distinct(focusables) && index < |focusables|
    ensures var t := Trap(ShowFocus(previous, active, focusables).bounds, closeOnEsc);
            FocusAfterTab(focusables, t, index, shiftKey)
              == Some(CycleStep(|focusables|, index, shiftKey))
  {
    var t := Trap(ShowFocus(previous, active, focusables).bounds, closeOnEsc);
    TabStepsRound(focusables, t, index, shiftKey);
  }
}
