/** The accessibility service's reactions: to window events (report a new
    transcript, auto-dismiss a terminal dialog), to the chat screen's input
    and cancel requests, and the one piece of state it keeps between them,
    `lastResponse`, the last transcript it reported. */
module UssdService {
  import opened Options
  import opened Strings
  import opened Tree
  import opened TreeSearch
  import opened Transcript
  import opened Classifier
  import opened Controls

  /** What the service broadcasts to the chat screen: a transcript with its
      session-end flag (`USSD_RESPONSE`), or an error text (`USSD_ERROR`). */
  datatype Broadcast =
    | Response(response: string, sessionEnd: bool)
    | Error(error: string)

  /** The result of one reaction: the new `lastResponse`, the broadcasts sent
      in their order, and the actions requested from the host in their order.
      The two lists are kept apart, so how broadcasts and actions interleave
      is not recorded. */
  datatype Step = Step(lastResponse: string, sent: seq<Broadcast>, actions: seq<Action>)

  const DismissLabels: seq<string> := ["OK", "Cancel", "Dismiss"]
  const SendLabels: seq<string> := ["Send", "Reply", "OK"]
  const RetryLabels: seq<string> := ["OK", "Send", "Reply"]
  const CancelLabels: seq<string> := ["Cancel", "Dismiss", "OK"]

  const DialogNotFound: string := "USSD dialog not found"
  const InputFieldNotFound: string := "Could not find input field in USSD dialog"
  const CancelledByUser: string := "Session cancelled by user."

  /** The dialog the service reads: the active window's root, or the event's
      source when there is no active window. */
  function DialogRoot(windowRoot: Option<Node>, source: Option<Node>): (r: Option<Node>)
    ensures r.Some? <==> windowRoot.Some? || source.Some?
    ensures windowRoot.Some? ==> r == windowRoot
    ensures windowRoot.None? ==> r == source
  {
    if windowRoot.Some? then windowRoot else source
  }

  /** `extractUssdContent`: a transcript is reported when it is non-empty and
      differs from the last one reported; it then becomes `lastResponse`. It
      ends the session exactly when the dialog is terminal, and only then is
      the dialog dismissed with an "OK" / "Cancel" / "Dismiss" click. */
  function ExtractUssdContent(last: string, windowRoot: Option<Node>, source: Option<Node>,
                              host: Action -> bool): (r: Step)
    ensures var root := DialogRoot(windowRoot, source);
            r.sent != [] <==> root.Some? && TranscriptOf(root.value) != [] && TranscriptOf(root.value) != last
    ensures r.sent == [] ==> r == Step(last, [], [])
    ensures r.sent != [] ==>
              var root := DialogRoot(windowRoot, source).value;
              && r.lastResponse == TranscriptOf(root)
              && r.sent == [Response(r.lastResponse, IsTerminal(root))]
              && (IsTerminal(root) ==> r.actions == ClickButton(root, DismissLabels, host).actions)
              && (!IsTerminal(root) ==> r.actions == [])
  {
    var root := DialogRoot(windowRoot, source);
    if root.None? then Step(last, [], [])
    else
      var response := TranscriptOf(root.value);
      if response != [] && response != last then
        var sessionEnd := !HasEditText(root.value) && !HasSendOrReplyButton(root.value);
        var dismiss := if sessionEnd then ClickButton(root.value, DismissLabels, host).actions else [];
        Step(response, [Response(response, sessionEnd)], dismiss)
      else Step(last, [], [])
  }

  /** Seeing the same dialog again reports nothing: the transcript it would
      report is already `lastResponse`. */
  lemma ExtractIdempotent(last: string, windowRoot: Option<Node>, source: Option<Node>,
                          host: Action -> bool, host': Action -> bool)
    ensures var r := ExtractUssdContent(last, windowRoot, source, host);
            ExtractUssdContent(r.lastResponse, windowRoot, source, host') == Step(r.lastResponse, [], [])
  {
  }

  /** `handleUserInput`: without a dialog, or when no text field accepts the
      input, an error is broadcast and `lastResponse` is kept. Otherwise the
      input is typed, "Send" / "Reply" / "OK" is clicked, with a second
      attempt listing "OK" first when no click was accepted, and
      `lastResponse` is cleared so that the next dialog is reported even if it
      reads the same. `retryHost` answers the second attempt's clicks. */
  function HandleUserInput(last: string, windowRoot: Option<Node>, input: string,
                           host: Action -> bool, retryHost: Action -> bool): (r: Step)
    ensures windowRoot.None? ==> r == Step(last, [Error(DialogNotFound)], [])
    ensures windowRoot.Some? ==>
              var root := windowRoot.value;
              var typed := SetEditTextValue(root, input, host);
              var send := ClickButton(root, SendLabels, host);
              && (typed.ok <==> r.sent == [])
              && (!typed.ok ==> r == Step(last, [Error(InputFieldNotFound)], typed.actions))
              && (typed.ok ==> r.lastResponse == [])
              && (typed.ok && send.ok ==> r.actions == typed.actions + send.actions)
              && (typed.ok && !send.ok ==>
                    r.actions == typed.actions + send.actions + ClickButton(root, RetryLabels, retryHost).actions)
  {
    if windowRoot.None? then Step(last, [Error(DialogNotFound)], [])
    else
      var root := windowRoot.value;
      var typed := SetEditTextValue(root, input, host);
      if typed.ok then
        var send := ClickButton(root, SendLabels, host);
        var retry := if send.ok then [] else ClickButton(root, RetryLabels, retryHost).actions;
        Step([], [], typed.actions + send.actions + retry)
      else Step(last, [Error(InputFieldNotFound)], typed.actions)
  }

  /** The second click attempt names the same labels as the first, so it
      targets the same nodes in the same order: when the host answers as it
      did the first time, it repeats the first attempt's clicks and fails
      again. */
  lemma RetryRepeatsFirstAttempt(last: string, root: Node, input: string, host: Action -> bool)
    requires SetEditTextValue(root, input, host).ok
    requires !ClickButton(root, SendLabels, host).ok
    ensures var send := ClickButton(root, SendLabels, host).actions;
            HandleUserInput(last, Some(root), input, host, host).actions
              == SetEditTextValue(root, input, host).actions + send + send
  {
    forall x
      ensures x in SendLabels <==> x in RetryLabels
    {
    }
    LabelOrderIrrelevant(root, SendLabels, RetryLabels, host);
  }

  /** A dialog whose text field rejects the input is reported as having no
      text field at all: both cases send the same error. */
  lemma RejectedInputReadsAsMissingField(last: string, root: Node, input: string,
                                         host: Action -> bool, retryHost: Action -> bool)
    requires EditFields(root) != []
    requires forall p :: !host(SetText(p, input))
    ensures HandleUserInput(last, Some(root), input, host, retryHost).sent == [Error(InputFieldNotFound)]
  {
  }

  /** `cancelUssdDialog`: try "Cancel" / "Dismiss" / "OK"; press Back when
      there is no dialog or no click was accepted; always report the session
      as ended by the user and clear `lastResponse`. */
  function CancelUssdDialog(last: string, windowRoot: Option<Node>, host: Action -> bool): (r: Step)
    ensures r.lastResponse == []
    ensures r.sent == [Response(CancelledByUser, true)]
    ensures windowRoot.None? ==> r.actions == [Back]
    ensures windowRoot.Some? ==>
              var c := ClickButton(windowRoot.value, CancelLabels, host);
              && |c.actions| <= |r.actions| <= |c.actions| + 1
              && r.actions[..|c.actions|] == c.actions
              && (Back in r.actions <==> !c.ok)
              && r.actions == c.actions + (if c.ok then [] else [Back])
  {
    if windowRoot.None? then Step([], [Response(CancelledByUser, true)], [Back])
    else
      var c := ClickButton(windowRoot.value, CancelLabels, host);
      var clicks := Clicks(ClickTargets(windowRoot.value, CancelLabels)[..|c.actions|]);
      assert Back !in clicks;
      var back := if c.ok then [] else [Back];
      assert (c.actions + back)[..|c.actions|] == c.actions;
      Step([], [Response(CancelledByUser, true)], c.actions + back)
  }

  /** The kinds of accessibility event the service tells apart. */
  datatype EventKind = WindowStateChanged | WindowContentChanged | OtherEvent

  /** An accessibility event: its kind, the package it comes from (`None`
      when the host reports none) and its source node. */
  datatype Event = Event(kind: EventKind, packageName: Option<string>, source: Option<Node>)

  /** The packages whose windows are taken for the USSD dialog. */
  predicate IsUssdPackage(pkg: string) {
    || Contains(pkg, "com.android.phone")
    || Contains(pkg, "com.android.server.telecom")
    || Contains(pkg, "com.samsung")
    || Contains(pkg, "telecom")
  }

  /** The "com.android.server.telecom" test adds nothing: any such package
      also contains "telecom". */
  lemma UssdPackageIff(pkg: string)
    ensures IsUssdPackage(pkg) <==>
              Contains(pkg, "com.android.phone") || Contains(pkg, "com.samsung") || Contains(pkg, "telecom")
  {
    if Contains(pkg, "com.android.server.telecom") {
      ContainsInfix(pkg, "telecom", "com.android.server.telecom", 19);
    }
  }

  /** The event matters when it reports a window change from a USSD
      package. */
  predicate IsUssdEvent(e: Event) {
    (e.kind == WindowStateChanged || e.kind == WindowContentChanged) && IsUssdPackage(e.packageName.GetOr([]))
  }

  /** `onAccessibilityEvent`: only window changes from a USSD package are
      read; everything else leaves the service as it was. */
  function OnAccessibilityEvent(last: string, event: Option<Event>, windowRoot: Option<Node>,
                                host: Action -> bool): (r: Step)
    ensures event.None? || !IsUssdEvent(event.value) ==> r == Step(last, [], [])
    ensures event.Some? && IsUssdEvent(event.value) ==>
              r == ExtractUssdContent(last, windowRoot, event.value.source, host)
  {
    if event.None? then Step(last, [], [])
    else if IsUssdEvent(event.value) then ExtractUssdContent(last, windowRoot, event.value.source, host)
    else Step(last, [], [])
  }

  /** An event without a package name is never read. */
  lemma NoPackageNoReport(last: string, kind: EventKind, source: Option<Node>,
                          windowRoot: Option<Node>, host: Action -> bool)
    ensures OnAccessibilityEvent(last, Some(Event(kind, None, source)), windowRoot, host) == Step(last, [], [])
  {
    NotContainsHead([], "telecom");
    NotContainsHead([], "com.samsung");
    NotContainsHead([], "com.android.phone");
    NotContainsHead([], "com.android.server.telecom");
  }

  /** The requests the chat screen sends the service (`USSD_INPUT` with its
      `input` extra, `USSD_CANCEL`). */
  datatype Request = InputRequest(input: Option<string>) | CancelRequest

  /** `inputReceiver.onReceive`: an input request without input is
      ignored. */
  function OnRequest(last: string, request: Request, windowRoot: Option<Node>,
                     host: Action -> bool, retryHost: Action -> bool): (r: Step)
    ensures request == InputRequest(None) ==> r == Step(last, [], [])
    ensures request.InputRequest? && request.input.Some? ==>
              r == HandleUserInput(last, windowRoot, request.input.value, host, retryHost)
    ensures request.CancelRequest? ==> r == CancelUssdDialog(last, windowRoot, host)
  {
    match request
    case InputRequest(None) => Step(last, [], [])
    case InputRequest(Some(input)) => HandleUserInput(last, windowRoot, input, host, retryHost)
    case CancelRequest => CancelUssdDialog(last, windowRoot, host)
  }

  /** A text made of trimmed, non-empty lines: what the clean-up produces. */
  ghost predicate CleanText(s: string) {
    forall k :: 0 <= k < |ContentLines(s)| ==> ContentLines(s)[k] != [] && Trimmed(ContentLines(s)[k])
  }

  /** Every reported response is non-empty. */
  ghost predicate ResponsesNonEmpty(sent: seq<Broadcast>) {
    forall k :: 0 <= k < |sent| && sent[k].Response? ==> sent[k].response != []
  }

  /** A transcript is a clean text. */
  lemma TranscriptIsClean(root: Node)
    ensures CleanText(TranscriptOf(root))
  {
  }

  /** `lastResponse` always holds a cleaned transcript (or nothing), and no
      event makes the service report an empty response. */
  lemma EventKeepsLastResponseClean(last: string, event: Option<Event>, windowRoot: Option<Node>,
                                    host: Action -> bool)
    requires CleanText(last)
    ensures var r := OnAccessibilityEvent(last, event, windowRoot, host);
            CleanText(r.lastResponse) && ResponsesNonEmpty(r.sent)
  {
    var r := OnAccessibilityEvent(last, event, windowRoot, host);
    if r.sent != [] {
      TranscriptIsClean(DialogRoot(windowRoot, event.value.source).value);
    }
  }

  /** Requests from the chat screen leave `lastResponse` clean too, and the
      only response they report is the non-empty cancel notice. */
  lemma RequestKeepsLastResponseClean(last: string, request: Request, windowRoot: Option<Node>,
                                      host: Action -> bool, retryHost: Action -> bool)
    requires CleanText(last)
    ensures var r := OnRequest(last, request, windowRoot, host, retryHost);
            CleanText(r.lastResponse) && ResponsesNonEmpty(r.sent)
  {
    assert ContentLines([]) == [];
  }

  /** The two halves of the service disagree on what a button is. A dialog
      whose one "Send" control is a clickable view of a non-Button class, with
      no text field and no other node labelled "send" or "reply", is terminal:
      the service ends the session on it. Yet that control is the very node
      `handleUserInput` would click to send a reply. */
  lemma {:induction false} ClickableSendViewEndsSession(root: Node, p: Path)
    requires At(root, p).Some?
    requires var n := At(root, p).value; !IsButtonClass(n) && n.clickable && n.text == Some("Send")
    requires forall q :: At(root, q).Some? ==> !IsEditText(At(root, q).value)
    requires forall q :: q != p && At(root, q).Some? ==>
               !Contains(LowerText(At(root, q).value), "send") && !Contains(LowerText(At(root, q).value), "reply")
    ensures IsTerminal(root)
    ensures IsClickCandidate(SendLabels, At(root, p).value)
  {
    var n := At(root, p).value;
    TerminalIff(root);
    assert Lower("Send") == "send";
    assert OccursAt(LowerText(n), Lower(SendLabels[0]), 0);
  }
}
