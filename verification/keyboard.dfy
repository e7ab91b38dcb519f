/**
 * The keydown handler of src/hooks/useKeyboardNavigation.ts: Ctrl/Cmd+N
 * creates a post, Ctrl/Cmd+V toggles the view, Escape closes things, and
 * keys typed into form fields are ignored.
 */
module KeyboardNavigation {

  /** What the event's target is, as far as the handler asks. */
  datatype Target = InputElement | TextAreaElement | SelectElement | OtherElement

  datatype KeyEvent = KeyEvent(key: string, ctrlKey: bool, metaKey: bool, target: Target)

  /** The callback the handler calls, if any. */
  datatype Callback = NoCallback | OnCreatePost | OnToggleView | OnEscape

  /** The handler's effect: one callback at most, and whether preventDefault() was called. */
  datatype Dispatch = Dispatch(callback: Callback, preventDefault: bool)

  /**
   * handleKeyDown: nothing for form fields; 'n'/'N' and 'v'/'V' only with
   * Ctrl or Meta, and then with preventDefault; Escape with any modifiers
   * and without preventDefault; nothing for every other key.
   */
  function HandleKeyDown(e: KeyEvent): (d: Dispatch)
    ensures e.target != OtherElement ==> d == Dispatch(NoCallback, false)
    ensures d.callback == OnCreatePost <==> e.target == OtherElement && (e.key == "n" || e.key == "N") && (e.ctrlKey || e.metaKey)
    ensures d.callback == OnToggleView <==> e.target == OtherElement && (e.key == "v" || e.key == "V") && (e.ctrlKey || e.metaKey)
    ensures d.callback == OnEscape <==> e.target == OtherElement && e.key == "Escape"
    ensures d.preventDefault <==> d.callback == OnCreatePost || d.callback == OnToggleView
  {
    if e.target.InputElement? || e.target.TextAreaElement? || e.target.SelectElement? then Dispatch(NoCallback, false)
    else if e.key == "n" || e.key == "N" then
      (if e.ctrlKey || e.metaKey then Dispatch(OnCreatePost, true) else Dispatch(NoCallback, false))
    else if e.key == "v" || e.key == "V" then
      (if e.ctrlKey || e.metaKey then Dispatch(OnToggleView, true) else Dispatch(NoCallback, false))
    else if e.key == "Escape" then Dispatch(OnEscape, false)
    else Dispatch(NoCallback, false)
  }
}
