/**
 * The decisions the rendering surface of src/modal-portal.ts takes on DOM events, apart
 * from the controller calls they lead to.
 */
module SurfaceEvents {
  import opened Options
  import opened Lists
  import opened Ledger

  /** The members of a DOM `KeyboardEvent` that `popOnEscape` reads. */
  datatype KeyboardEvent = KeyboardEvent(isComposing: bool, keyCode: int, key: string)

  /** Key presses that belong to an input-method composition; `popOnEscape` ignores them. */
  predicate IsComposing(e: KeyboardEvent)
  {
    e.isComposing || e.keyCode == 229
  }

  /** The key names the UI Events specification and older browsers give the Escape key. */
  predicate IsEscapeKey(e: KeyboardEvent)
  {
    e.key == "Escape" || e.key == "Esc"
  }

  const PathWarning: string := "Could not locate modal portal at appropriate depth in the @closeModal event path"

  /**
   * `closeModal`'s lookup: the first occurrence of the portal element in the event path
   * and the element just before it, which is the rendered modal node that the event
   * bubbled out of. There is none when the portal element is not rendered, not on the
   * path, or first on it.
   */
  function ClosingNode(path: seq<Node>, portal: Option<Node>): (modal: Option<Node>)
    ensures modal.Some? <==> portal.Some? && portal.value in path && path[0] != portal.value
    ensures modal.Some? ==> exists i :: 1 <= i < |path| && path[i] == portal.value &&
                                        portal.value !in path[..i] && modal.value == path[i - 1]
  {
    var index := if portal.Some? then IndexOf(path, portal.value) else -1;
    if index < 1 then None else Some(path[index - 1])
  }
}
