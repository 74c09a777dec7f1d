/**
 * The settings dialog: a record of boolean settings initialised from the
 * option list, a toggle per switch, and the keyboard and mouse rules that
 * keep focus inside the open dialog and close it.
 */
module SettingsDialog {
  import opened Wrappers

  /** One entry of the option list the dialog is built from (`labelText` is the option's `label`). */
  datatype SettingsOption = SettingsOption(id: string, labelText: string, defaultEnabled: bool)

  /** Option `k` is the last one carrying its id. */
  ghost predicate LastWithId(options: seq<SettingsOption>, k: nat)
    requires k < |options|
  {
    forall j :: k < j < |options| ==> options[j].id != options[k].id
  }

  /**
   * The `reduce` that builds the initial record: each option's id is set to
   * its default, in list order, so a later option with the same id overwrites
   * an earlier one.
   */
  method InitialSettings(options: seq<SettingsOption>) returns (acc: map<string, bool>)
    ensures acc.Keys == set k | 0 <= k < |options| :: options[k].id
    ensures forall k :: 0 <= k < |options| && LastWithId(options, k) ==> acc[options[k].id] == options[k].defaultEnabled
  {
    acc := map[];
    for i := 0 to |options|
      invariant acc.Keys == set k | 0 <= k < i :: options[k].id
      invariant forall k :: 0 <= k < i && LastWithId(options[..i], k) ==> acc[options[k].id] == options[k].defaultEnabled
    {
      acc := acc[options[i].id := options[i].defaultEnabled];
    }
    assert options[..|options|] == options;
  }

  /** `settings[id] ?? false`: the switch's checked state, false for an id the record lacks. */
  function Checked(settings: map<string, bool>, id: string): (r: bool)
    ensures r <==> id in settings && settings[id]
  {
    if id in settings then settings[id] else false
  }

  /** `{...prev, [id]: !prev[id]}`: an absent id reads as false, so it becomes true. */
  function Toggle(settings: map<string, bool>, id: string): (r: map<string, bool>)
    ensures r.Keys == settings.Keys + {id}
    ensures Checked(r, id) == !Checked(settings, id)
    ensures forall other :: other != id && other in settings ==> r[other] == settings[other]
  {
    settings[id := !Checked(settings, id)]
  }

  /** Toggling twice restores a present setting; an absent one ends up stored as false. */
  lemma ToggleTwice(settings: map<string, bool>, id: string)
    ensures id in settings ==> Toggle(Toggle(settings, id), id) == settings
    ensures id !in settings ==> Toggle(Toggle(settings, id), id) == settings[id := false]
    ensures Checked(Toggle(Toggle(settings, id), id), id) == Checked(settings, id)
  {
  }

  /** The dialog's settings record, owned by the component. */
  class SettingsState {
    var settings: map<string, bool>

    constructor (options: seq<SettingsOption>)
      ensures settings.Keys == set k | 0 <= k < |options| :: options[k].id
      ensures forall k :: 0 <= k < |options| && LastWithId(options, k) ==> settings[options[k].id] == options[k].defaultEnabled
    {
      var initial := InitialSettings(options);
      settings := initial;
    }

    /** `handleToggle`: flip one setting, keep every other. */
    method HandleToggle(id: string)
      modifies this
      ensures settings == Toggle(old(settings), id)
      ensures Checked(settings, id) == !Checked(old(settings), id)
      ensures forall other :: other != id ==> Checked(settings, other) == Checked(old(settings), other)
    {
      settings := Toggle(settings, id);
    }
  }

  // ---------------------------------------------------------------------------
  // Focus trap

  /**
   * The Tab handler, installed only while the dialog is open, over its `count` focusable elements
   * (indices in document order). `active` is the index of the focused element,
   * or `None` when focus is elsewhere. The answer is the index focus is moved
   * to after `preventDefault`, or `None` when the browser's own move stands.
   */
  function FocusTrap(open: bool, key: string, shiftKey: bool, active: Option<nat>, count: nat): (r: Option<nat>)
    ensures r.Some? ==> open && key == "Tab" && r.value < count
    ensures r.Some? <==> open && key == "Tab" && count > 0 && active == Some(if shiftKey then 0 else count - 1)
    ensures r.Some? ==> r.value == if shiftKey then count - 1 else 0
  {
    if !open || key != "Tab" || count == 0 then None
    else if shiftKey then (if active == Some(0) then Some(count - 1) else None)
    else (if active == Some(count - 1) then Some(0) else None)
  }

  /**
   * Where focus lands after Tab or Shift+Tab from focusable element `a` of the open dialog:
   * the trap's target when it redirects, otherwise the browser's move to the
   * next or previous element in the dialog's focus order.
   */
  function NextFocus(shiftKey: bool, a: nat, count: nat): int
    requires a < count
  {
    match FocusTrap(true, "Tab", shiftKey, Some(a), count)
    case Some(target) => target
    case None => if shiftKey then a - 1 else a + 1
  }

  /** Repeated Tab or Shift+Tab never leaves the dialog: focus cycles through its elements. */
  lemma FocusStaysInside(shiftKey: bool, a: nat, count: nat)
    requires a < count
    ensures 0 <= NextFocus(shiftKey, a, count) < count
    ensures !shiftKey ==> NextFocus(shiftKey, a, count) == (a + 1) % count
    ensures shiftKey ==> NextFocus(shiftKey, a, count) == (a + count - 1) % count
  {
    if !shiftKey {
      if a + 1 == count {
        ModPlusDivisor(0, count);
      } else {
        SmallMod(a + 1, count);
      }
    } else {
      if a == 0 {
        SmallMod(count - 1, count);
      } else {
        ModPlusDivisor(a - 1, count);
      }
    }
  }

  lemma SmallMod(x: int, n: int)
    requires 0 <= x < n
    ensures x % n == x
  {
  }

  lemma ModPlusDivisor(x: int, n: int)
    requires 0 <= x < n
    ensures (x + n) % n == x
  {
  }

  // ---------------------------------------------------------------------------
  // Closing

  /** What reaches the dialog: a key press, a click on the overlay layer (with the event's target and the overlay itself), or a click on the close button. */
  datatype DialogEvent =
    | KeyDown(key: string, shiftKey: bool)
    | OverlayClick(target: nat, currentTarget: nat)
    | CloseButtonClick

  /**
   * Whether the event makes the dialog call `onOpenChange(false)`. A closed
   * dialog renders nothing and listens to nothing. Escape closes; a click
   * closes only when it lands on the overlay itself, not on a child.
   */
  function RequestsClose(open: bool, ev: DialogEvent): (r: bool)
    ensures r ==> open
    ensures ev.KeyDown? ==> (r <==> open && ev.key == "Escape")
    ensures ev.OverlayClick? ==> (r <==> open && ev.target == ev.currentTarget)
    ensures ev.CloseButtonClick? ==> (r <==> open)
  {
    open &&
    match ev
    case KeyDown(key, _) => key == "Escape"
    case OverlayClick(target, currentTarget) => target == currentTarget
    case CloseButtonClick => true
  }

  /** While open, Escape requests close whatever the Shift state; other keys do not. */
  lemma EscapeRequestsClose(open: bool, key: string, shiftKey: bool)
    ensures RequestsClose(open, KeyDown(key, shiftKey)) <==> open && key == "Escape"
    ensures !RequestsClose(false, KeyDown(key, shiftKey))
  {
  }

  /** A click that bubbles up from a child of the overlay (target and current target differ) leaves the dialog open. */
  lemma ChildClickKeepsOpen(open: bool, child: nat, overlay: nat)
    requires child != overlay
    ensures !RequestsClose(open, OverlayClick(child, overlay))
    ensures RequestsClose(open, OverlayClick(overlay, overlay)) == open
  {
  }
}
