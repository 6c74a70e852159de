/** The service's test for whether a dialog still expects a reply: it does
    when it holds a text-input node or a Button-class node labelled "send" or
    "reply". A dialog with neither is terminal. */
module Classifier {
  import opened Strings
  import opened Tree

  /** A Button-class node whose lower-cased text contains "send" or "reply".
      Only the class decides what counts as a button here: a clickable view of
      another class never does. */
  predicate IsSendOrReply(n: Node) {
    IsButtonClass(n) && (Contains(LowerText(n), "send") || Contains(LowerText(n), "reply"))
  }

  /** `hasEditText`: some node of the tree is of an EditText class. */
  function HasEditText(root: Node): (r: bool)
    ensures r <==> exists p :: HoldsAt(root, p, IsEditText)
  {
    AnyIff(root, IsEditText);
    Any(root, IsEditText)
  }

  /** `hasSendOrReplyButton`: some node of the tree is a send or reply
      button. */
  function HasSendOrReplyButton(root: Node): (r: bool)
    ensures r <==> exists p :: HoldsAt(root, p, IsSendOrReply)
  {
    AnyIff(root, IsSendOrReply);
    Any(root, IsSendOrReply)
  }

  /** The dialog ends the session: nothing in it takes a reply. */
  predicate IsTerminal(root: Node) {
    !HasEditText(root) && !HasSendOrReplyButton(root)
  }

  /** A node that takes no reply: neither a text input nor a send or reply
      button. */
  predicate Inert(n: Node) {
    !IsEditText(n) && !IsSendOrReply(n)
  }

  /** Terminal exactly when no node is a text input and no node is a send or
      reply button. */
  lemma TerminalIff(root: Node)
    ensures IsTerminal(root) <==> forall p :: At(root, p).Some? ==> Inert(At(root, p).value)
  {
    if IsTerminal(root) {
      forall p | At(root, p).Some?
        ensures Inert(At(root, p).value)
      {
        assert !HoldsAt(root, p, IsEditText) && !HoldsAt(root, p, IsSendOrReply);
      }
    } else {
      var p := ReplyNode(root);
    }
  }

  /** A dialog that is not terminal has a node that takes a reply. */
  lemma ReplyNode(root: Node) returns (p: Path)
    requires !IsTerminal(root)
    ensures At(root, p).Some? && !Inert(At(root, p).value)
  {
    if HasEditText(root) {
      p :| HoldsAt(root, p, IsEditText);
    } else {
      p :| HoldsAt(root, p, IsSendOrReply);
    }
  }

  /** A text input anywhere keeps the session open, whatever buttons sit
      beside it (a "Cancel" among them included). */
  lemma InputKeepsSessionOpen(root: Node, p: Path)
    requires At(root, p).Some? && IsEditText(At(root, p).value)
    ensures !IsTerminal(root)
  {
    assert HoldsAt(root, p, IsEditText);
  }
}
