/** The two halves together: the chat screen's commands reach the service as
    requests, and the service's broadcasts reach the chat screen. Both
    receivers are taken to be registered, so nothing sent is lost; a chat
    screen that is paused, or a service not yet connected, is not modelled. */
module Session {
  import opened Options
  import opened Strings
  import opened Tree
  import opened TreeSearch
  import opened Transcript
  import opened Classifier
  import opened Controls
  import opened UssdService
  import opened Chat

  /** A service broadcast as the chat screen receives it: both extras are
      always present. */
  function Deliver(b: Broadcast): (r: Inbound)
    ensures b.Response? <==> r.ResponseIntent?
    ensures b.Response? ==> r.response == Some(b.response) && r.sessionEnd == b.sessionEnd
    ensures b.Error? ==> r.error == Some(b.error)
  {
    match b
    case Response(response, sessionEnd) => ResponseIntent(Some(response), sessionEnd)
    case Error(error) => ErrorIntent(Some(error))
  }

  /** The request a chat command sends the service, if any. */
  function ToService(c: Command): (r: Option<Request>)
    ensures r.Some? <==> c.CancelSession? || c.SendInput?
    ensures c.SendInput? ==> r == Some(InputRequest(Some(c.input)))
    ensures c.CancelSession? ==> r == Some(CancelRequest)
  {
    match c
    case CancelSession => Some(CancelRequest)
    case SendInput(input) => Some(InputRequest(Some(input)))
    case _ => None
  }

  /** Typing a cancel word during a session cancels the dialog, and the
      service's answer leaves the chat inactive, with the overlay hidden and
      both the cancel notice and the session-end notice shown. */
  lemma CancelRoundTrip(typed: string, accessibilityOn: bool, overlayAllowed: bool,
                        last: string, windowRoot: Option<Node>, host: Action -> bool, retryHost: Action -> bool)
    requires Lower(Trim(typed)) in CancelWords
    ensures var c := SendMessage(true, typed, accessibilityOn, overlayAllowed);
            && ToService(c.command) == Some(CancelRequest)
            && var s := OnRequest(last, CancelRequest, windowRoot, host, retryHost);
               && s.lastResponse == []
               && |s.sent| == 1
               && var r := OnReceive(c.active, Deliver(s.sent[0]));
                  && !r.active
                  && r.overlay == HideOverlay
                  && r.chat == [Bot(Ussd(CancelledByUser)), Bot(SessionEnded)]
  {
  }

  /** Every error the service reports on input ends the chat's session. */
  lemma InputErrorEndsSession(active: bool, last: string, windowRoot: Option<Node>, input: string,
                              host: Action -> bool, retryHost: Action -> bool)
    ensures var s := HandleUserInput(last, windowRoot, input, host, retryHost);
            forall k :: 0 <= k < |s.sent| ==> !OnReceive(active, Deliver(s.sent[k])).active
  {
  }

  /** A reported transcript keeps the chat's session open exactly when the
      dialog still takes a reply, and the transcript is always shown. */
  lemma ReportFollowsDialog(active: bool, last: string, windowRoot: Option<Node>, source: Option<Node>,
                            host: Action -> bool)
    requires ExtractUssdContent(last, windowRoot, source, host).sent != []
    ensures var root := DialogRoot(windowRoot, source).value;
            var s := ExtractUssdContent(last, windowRoot, source, host);
            var r := OnReceive(active, Deliver(s.sent[0]));
            && (r.active <==> active && !IsTerminal(root))
            && Bot(Ussd(TranscriptOf(root))) in r.chat
  {
  }

  /** After an accepted input the next dialog is reported even when it reads
      exactly like the one before: the input cleared `lastResponse`. */
  lemma InputReopensReporting(last: string, root: Node, input: string,
                              host: Action -> bool, retryHost: Action -> bool,
                              next: Option<Node>, source: Option<Node>, host': Action -> bool)
    requires SetEditTextValue(root, input, host).ok
    requires DialogRoot(next, source).Some? && TranscriptOf(DialogRoot(next, source).value) != []
    ensures var s := HandleUserInput(last, Some(root), input, host, retryHost);
            ExtractUssdContent(s.lastResponse, next, source, host').sent != []
  {
  }
}
