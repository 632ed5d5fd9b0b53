/** The editor's focused node and the rule that toggles it when the mouse is
    released over a node.

    Nodes are referred to by handle; `H` is the handle type and its equality
    is the one the editor uses to compare the focused handle with a node's.
 */
module Focus {
  import opened Options

  /** `node` is the focused node. */
  predicate IsFocused<H(==)>(focused: Option<H>, node: H)
  {
    focused == Some(node)
  }

  /** Releasing the mouse over `node` unfocuses it when it is the focused node
      and focuses it otherwise. */
  function ToggleFocus<H(==)>(focused: Option<H>, node: H): (r: Option<H>)
    ensures r == None <==> focused == Some(node)
    ensures r != None ==> r == Some(node)
  {
    match focused
    case Some(current) => if current == node then None else Some(node)
    case None => Some(node)
  }

  /** A toggle flips whether `node` is focused, and leaves no other node
      focused. */
  lemma ToggleFlipsFocus<H>(focused: Option<H>, node: H, other: H)
    ensures IsFocused(ToggleFocus(focused, node), node) <==> !IsFocused(focused, node)
    ensures other != node ==> !IsFocused(ToggleFocus(focused, node), other)
  {
  }

  /** Two toggles on the same node restore its own focus state; any other
      node that was focused before stays unfocused. In particular, from no
      focus, two toggles return to no focus. */
  lemma ToggleTwice<H>(focused: Option<H>, node: H)
    ensures ToggleFocus(ToggleFocus(focused, node), node) == (if focused == Some(node) then focused else None)
    ensures focused == None ==> ToggleFocus(ToggleFocus(focused, node), node) == None
  {
  }
}
