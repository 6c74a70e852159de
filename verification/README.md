# USSD chat: the dialog automaton and the chat-side session flag

This project models the two pieces of sequential logic in the USSD chat app
(package `com.ussdchat.app`) and proves properties about them in Dafny.

- **The accessibility service** (`UssdAccessibilityService`). It reads the
  phone's USSD dialog as a tree of nodes. From that tree it:
  - recovers the message text (`extractAllText`, `isButtonText`,
    `cleanResponse`);
  - decides whether the dialog still expects a reply (`hasEditText`,
    `hasSendOrReplyButton`);
  - types into the dialog and clicks its buttons (`setEditTextValue`,
    `clickButton`).

  The handlers `extractUssdContent`, `handleUserInput` and `cancelUssdDialog`
  tie these to the service's one piece of state, `lastResponse`. They also
  decide what the service broadcasts to the chat screen. The package filter
  of `onAccessibilityEvent` and the `inputReceiver` dispatch are modelled too.
- **The chat screen** (`MainActivity`). `sendMessage` dispatches the user's
  trimmed text over the `ussdSessionActive` flag. `ussdResponseReceiver`
  updates that flag from the service's broadcasts.

The dialog is an immutable tree, `Tree.Node(className, text, desc, clickable,
children)`. A node is addressed by its `Path` of child indices.

The host's `performAction` and `performGlobalAction` are modelled as an oracle
`host: Action -> bool`. An `Action` is `Focus`, `SetText`, `Click` on a path,
or `Back`. Every handler is a pure function from the old `lastResponse`, the
dialog and the oracle to a `Step`. A `Step` holds the new `lastResponse`, the
broadcasts sent in their order, and the actions requested in their order.

## Modules

| file | module | content |
|---|---|---|
| `options.dfy` | `Options` | `Option` |
| `strings.dfy` | `Strings` | models of Java's `String` operations: `trim`, ASCII `toLowerCase`, `contains`, `replace(_, "")`, `split("\n")`, and newline joining; plus the line-level lemmas behind `cleanResponse` |
| `tree.dfy` | `Tree` | the node tree, paths, `At`, and the recursive `Any` with its path characterisation |
| `search.dfy` | `TreeSearch` | the first-success pre-order search shared by `clickButton` and `setEditTextValue` (`Search`), and its reference reading: the frontier of topmost matching nodes, scanned in order |
| `transcript.dfy` | `Transcript` | `isButtonText`, `extractAllText`, `cleanResponse`, and the transcript of a tree |
| `classifier.dfy` | `Classifier` | `hasEditText`, `hasSendOrReplyButton`, terminal dialogs |
| `controls.dfy` | `Controls` | `clickButton`, `setEditTextValue` |
| `service.dfy` | `UssdService` | the handlers, the event filter, the request dispatch, and the `lastResponse` invariant |
| `chat.dfy` | `Chat` | `sendMessage` and the broadcast receiver |
| `session.dfy` | `Session` | the two halves connected through their broadcasts |

## Notes on the behaviour as written

The model follows the code, including these points where it may surprise a
reader:

- **Duplicate lines.** A transcript line that repeats the previous one is
  kept; see `Transcript.RepeatedLinesAreKept`.
- **Descriptions on buttons.** A node's description is added whenever its
  text is null, Button-class nodes included; see
  `Transcript.ButtonDescriptionIsContent`.
- **Label priority in `clickButton`.** The tree is walked once. The nodes
  that match ANY label are clicked in pre-order, each only when every
  earlier click failed, and the walk stops at the first click the host
  accepts. Label order never changes which nodes are clicked: within one
  node the label loop only picks which label is logged. So a caller cannot
  prefer "Send" over "OK". See `Controls.FirstCandidateWins` and
  `Controls.LabelOrderIrrelevant`. A consequence is that the second click
  attempt of `handleUserInput` targets exactly the nodes the first one did;
  see `UssdService.RetryRepeatsFirstAttempt`.
- **Which nodes are buttons.** The terminal test and the clicking disagree:
  - `hasSendOrReplyButton` only looks at nodes whose class contains
    "Button";
  - `clickButton` takes Button-class nodes and also any clickable node.

  So a dialog whose only "Send" control is a clickable view of another
  class is terminal, although that view is what a reply would click; see
  `UssdService.ClickableSendViewEndsSession`.
- **Empty transcripts.** A transcript is reported only when it differs from
  `lastResponse`, and an empty transcript is never reported.

## Model

| member | source | states |
|---|---|---|
| Transcript.IsButtonTextIff | app/src/main/java/com/ussdchat/app/UssdAccessibilityService.java:153-159 | a text is a button label exactly when the node's class contains "Button", or the lower-cased text is one of send/cancel/ok/reply/dismiss with only blanks around it |
| Transcript.PaddedWordTrim | app/src/main/java/com/ussdchat/app/UssdAccessibilityService.java:156-158 | comparing the trimmed text with a word is the same as finding the word with only blanks around it |
| Transcript.ExtractIsCollect | app/src/main/java/com/ussdchat/app/UssdAccessibilityService.java:123-151 | the walk appends, in pre-order, each node's own contribution (text unless it is a button label; description only when the text is null), and it visits every child whether or not the node contributed |
| Transcript.ExtractJoinsPieces | app/src/main/java/com/ussdchat/app/UssdAccessibilityService.java:123-151 | starting from an empty builder, the result is the pre-order contributions joined by single newlines with no leading separator; empty contributions at the front leave no trace |
| Transcript.CleanResponse | app/src/main/java/com/ussdchat/app/UssdAccessibilityService.java:161-175 | no line of the output is empty and every line is trimmed |
| Transcript.CleanResponseLines | app/src/main/java/com/ussdchat/app/UssdAccessibilityService.java:161-175 | the output's lines are exactly the non-blank lines of the input after "USSD" is removed, each trimmed, in their order |
| Transcript.SameContentSameTranscript | app/src/main/java/com/ussdchat/app/UssdAccessibilityService.java:123-151 | two dialogs with the same non-label contributions in the same order give the same transcript, whatever their buttons |
| Transcript.SilentTreeHasNoTranscript | app/src/main/java/com/ussdchat/app/UssdAccessibilityService.java:127-141 | a tree made only of button labels and nodes without text or description has an empty transcript |
| Transcript.CleanOneLine | app/src/main/java/com/ussdchat/app/UssdAccessibilityService.java:161-175 | a non-empty trimmed line without a newline or "USSD" comes out of the clean-up unchanged |
| Transcript.CleanTwoLines | app/src/main/java/com/ussdchat/app/UssdAccessibilityService.java:161-175 | two such lines joined by a newline come out unchanged, even when they are equal |
| Transcript.ButtonDescriptionIsContent | app/src/main/java/com/ussdchat/app/UssdAccessibilityService.java:137-141 | a Button-class node with no text but with a description contributes that description to the transcript |
| Transcript.RepeatedLinesAreKept | app/src/main/java/com/ussdchat/app/UssdAccessibilityService.java:127-133 | two sibling nodes with the same content line give a transcript that shows the line twice |
| Transcript.NoiseRemovalIsSinglePass | app/src/main/java/com/ussdchat/app/UssdAccessibilityService.java:163 | "USSD" is removed in one left-to-right pass: "USUSSDSD" becomes "USSD", not "" |
| Strings.Contains | app/src/main/java/com/ussdchat/app/UssdAccessibilityService.java:196-197 | `contains` holds exactly when the pattern occurs at some offset of the text |
| Strings.RemoveAll | app/src/main/java/com/ussdchat/app/UssdAccessibilityService.java:163 | removing a pattern never lengthens the text; it shortens it exactly when the pattern occurs, and otherwise leaves the text unchanged |
| Strings.RemoveAllFirst | app/src/main/java/com/ussdchat/app/UssdAccessibilityService.java:163 | when the pattern first occurs at offset i, the result is the first i characters unchanged followed by the removal applied to the text after that occurrence |
| Strings.RemoveAllSkip | app/src/main/java/com/ussdchat/app/UssdAccessibilityService.java:163 | characters before the first place the pattern starts are kept unchanged, in front of the removal applied to the rest |
| Strings.TrimWindow | app/src/main/java/com/ussdchat/app/UssdAccessibilityService.java:168 | a trimmed text is the stretch of the original between blank-only margins, and its own ends are not blank |
| Strings.KeepLinesTrim | app/src/main/java/com/ussdchat/app/UssdAccessibilityService.java:163-173 | trimming the whole text before splitting it into lines leaves its trimmed non-blank lines unchanged |
| Strings.SplitJoin | app/src/main/java/com/ussdchat/app/UssdAccessibilityService.java:165-173 | splitting the newline join of lines without newlines gives the lines back |
| Tree.AnyIff | app/src/main/java/com/ussdchat/app/UssdAccessibilityService.java:177-190 | the short-circuiting recursive search over the tree holds exactly when some node of the tree passes the test |
| Classifier.HasEditText | app/src/main/java/com/ussdchat/app/UssdAccessibilityService.java:177-190 | true exactly when some node's class contains "EditText" |
| Classifier.HasSendOrReplyButton | app/src/main/java/com/ussdchat/app/UssdAccessibilityService.java:192-208 | true exactly when some Button-class node has a lower-cased text containing "send" or "reply" |
| Classifier.TerminalIff | app/src/main/java/com/ussdchat/app/UssdAccessibilityService.java:102-105 | a dialog ends the session exactly when none of its nodes is a text input or a send/reply button |
| Classifier.ReplyNode | app/src/main/java/com/ussdchat/app/UssdAccessibilityService.java:102-105 | a dialog that is not terminal has a node that takes a reply |
| Classifier.InputKeepsSessionOpen | app/src/main/java/com/ussdchat/app/UssdAccessibilityService.java:102-105 | a text input anywhere in the dialog keeps the session open |
| TreeSearch.SearchIsScan | app/src/main/java/com/ussdchat/app/UssdAccessibilityService.java:299-307 | the recursive search equals trying the topmost matching nodes in pre-order and stopping at the first accepted one |
| TreeSearch.FrontierPrefixFree | app/src/main/java/com/ussdchat/app/UssdAccessibilityService.java:278-305 | no node the search acts on lies inside another: a matching node's children are never searched |
| Controls.ClickButton | app/src/main/java/com/ussdchat/app/UssdAccessibilityService.java:272-308 | the clicks are the candidates in pre-order, up to the first that the host accepts; every earlier click failed, so at most one click succeeds; the result is true exactly when some candidate's click succeeds |
| Controls.ClickTargetsSpec | app/src/main/java/com/ussdchat/app/UssdAccessibilityService.java:272-308 | the clicked nodes are Button-class or clickable nodes whose lower-cased text contains a lower-cased label; none lies inside another; every candidate is one of them or lies inside one |
| Controls.LabelOrderIrrelevant | app/src/main/java/com/ussdchat/app/UssdAccessibilityService.java:278-295 | two label lists with the same labels click the same nodes with the same result |
| Controls.FirstCandidateWins | app/src/main/java/com/ussdchat/app/UssdAccessibilityService.java:278-305 | with labels "Send" then "OK", an "OK" button that comes before a "Send" button is the one clicked |
| Controls.SetEditTextValue | app/src/main/java/com/ussdchat/app/UssdAccessibilityService.java:237-270 | each text field in pre-order gets focus, set-text "" and set-text value, in that order, up to the first whose final set-text the host accepts; the result is true exactly when some final set-text succeeds |
| Controls.EditFieldsSpec | app/src/main/java/com/ussdchat/app/UssdAccessibilityService.java:242-268 | only EditText nodes are written to; none lies inside another; every EditText node is one of them or lies inside one |
| UssdService.DialogRoot | app/src/main/java/com/ussdchat/app/UssdAccessibilityService.java:77-82 | the active window's root is read when there is one, otherwise the event's source |
| UssdService.ExtractUssdContent | app/src/main/java/com/ussdchat/app/UssdAccessibilityService.java:76-121 | a response is broadcast exactly when a dialog is found and its transcript is non-empty and differs from `lastResponse`, which then becomes the transcript; the session-end flag is the terminal test; the dismiss click happens only for a terminal dialog; otherwise nothing changes |
| UssdService.ExtractIdempotent | app/src/main/java/com/ussdchat/app/UssdAccessibilityService.java:93-94 | reading the same dialog a second time reports nothing and changes nothing |
| UssdService.HandleUserInput | app/src/main/java/com/ussdchat/app/UssdAccessibilityService.java:210-235 | a missing dialog or a rejected input sends one error and keeps `lastResponse`; an accepted input sends nothing and clears `lastResponse`, and the OK/Send/Reply retry happens exactly when the Send/Reply/OK click failed |
| UssdService.RetryRepeatsFirstAttempt | app/src/main/java/com/ussdchat/app/UssdAccessibilityService.java:224-228 | when the host answers the same, the retry clicks exactly the nodes the first attempt clicked |
| UssdService.RejectedInputReadsAsMissingField | app/src/main/java/com/ussdchat/app/UssdAccessibilityService.java:220-232 | a dialog whose text fields all reject the input sends the same error as a dialog without a text field |
| UssdService.CancelUssdDialog | app/src/main/java/com/ussdchat/app/UssdAccessibilityService.java:310-331 | one response, "Session cancelled by user.", with session end, is always sent, and `lastResponse` is cleared; the actions are exactly the cancel clicks, followed by Back when there is no dialog or no cancel click succeeded |
| UssdService.UssdPackageIff | app/src/main/java/com/ussdchat/app/UssdAccessibilityService.java:65-68 | the "com.android.server.telecom" test is subsumed by the "telecom" test |
| UssdService.OnAccessibilityEvent | app/src/main/java/com/ussdchat/app/UssdAccessibilityService.java:53-74 | an absent event, an event other than a window change, or one from another package changes nothing; a window change from a USSD package runs the extraction |
| UssdService.NoPackageNoReport | app/src/main/java/com/ussdchat/app/UssdAccessibilityService.java:61-68 | an event without a package name is never read |
| UssdService.OnRequest | app/src/main/java/com/ussdchat/app/UssdAccessibilityService.java:22-34 | an input request without input is ignored; other requests run the input or cancel handler |
| UssdService.TranscriptIsClean | app/src/main/java/com/ussdchat/app/UssdAccessibilityService.java:88-91 | every transcript is made of non-empty trimmed lines |
| UssdService.EventKeepsLastResponseClean | app/src/main/java/com/ussdchat/app/UssdAccessibilityService.java:93-94 | events keep `lastResponse` a clean text and never broadcast an empty response |
| UssdService.ClickableSendViewEndsSession | app/src/main/java/com/ussdchat/app/UssdAccessibilityService.java:192-198 | a dialog with no text field whose only "Send"-labelled node is a clickable view of a non-Button class is terminal, while that view is a click candidate for the Send/Reply/OK labels |
| UssdService.RequestKeepsLastResponseClean | app/src/main/java/com/ussdchat/app/UssdAccessibilityService.java:229 | input and cancel requests keep `lastResponse` a clean text and only broadcast non-empty responses |
| Chat.SendMessage | app/src/main/java/com/ussdchat/app/MainActivity.java:142-209 | blank text does nothing; other text is echoed trimmed and answered by exactly one notice; a cancel word cancels exactly when a session is active, and otherwise answers that there is nothing to cancel; a start word with no session active opens the accessibility settings when the service is off, else the overlay settings when the overlay is not allowed, else dials "*99#"; any other text is forwarded verbatim exactly when a session is active, and otherwise answers that there is no session; a settings screen opens only in those two permission cases |
| Chat.SendMessageFlag | app/src/main/java/com/ussdchat/app/MainActivity.java:153-197 | the session flag changes only with a cancel or a dial; the overlay is shown exactly on a dial and hidden exactly on a cancel |
| Chat.StartWordForwardedWhenActive | app/src/main/java/com/ussdchat/app/MainActivity.java:172-205 | during a session a start word such as "hello" is forwarded as input |
| Chat.CancelIgnoresCase | app/src/main/java/com/ussdchat/app/MainActivity.java:143-153 | "Exit" with blanks around it cancels an active session |
| Chat.OnReceive | app/src/main/java/com/ussdchat/app/MainActivity.java:51-77 | the chat gains exactly the non-empty response, then the session-ended notice on a session end; a session end or an error makes the session inactive and hides the overlay, and otherwise the flag is kept; an error adds exactly one line, with "Unknown error" standing in for a missing text |
| Session.Deliver | app/src/main/java/com/ussdchat/app/MainActivity.java:54-70 | a service broadcast, when it is delivered, reaches the chat screen with both of its extras present |
| Session.ToService | app/src/main/java/com/ussdchat/app/MainActivity.java:153-205 | only the cancel and forward commands reach the service, as a cancel request and an input request with the text |
| Session.CancelRoundTrip | app/src/main/java/com/ussdchat/app/UssdAccessibilityService.java:310-331 | a cancel word typed during a session ends with the chat inactive, the overlay hidden, and the cancel and session-end notices shown |
| Session.InputErrorEndsSession | app/src/main/java/com/ussdchat/app/MainActivity.java:69-75 | every error the input handler reports ends the chat's session |
| Session.ReportFollowsDialog | app/src/main/java/com/ussdchat/app/UssdAccessibilityService.java:102-112 | a reported transcript is shown, and the chat's session stays open exactly when it was open and the dialog still takes a reply |
| Session.InputReopensReporting | app/src/main/java/com/ussdchat/app/UssdAccessibilityService.java:229 | after an accepted input, the next dialog with a non-empty transcript is reported, even if it reads like the previous one |

## Left out

- `OverlayService` (the window that hides the dialog): the model records only
  whether the chat screen shows it, hides it or leaves it alone (`Overlay`).
- `dialUssd`: the model issues `DialSession("*99#")` and stops there, because
  the call intent and `Uri.encode` are outside the model.
- Delays: the `Handler.postDelayed` delays before dialling and before the
  overlay is stopped are left out. Each reaction is one atomic step.
- Concurrency between accessibility events and broadcasts is left out.
  Handlers run one at a time.
- `bringAppToFront`, `Log`, node `recycle()`, `onInterrupt`, `onDestroy`,
  `updateStatus`, and the permission requests and settings screens are left
  out. The last appear only as the `Screen` that would be opened.
- Receiver registration: the `Session` module assumes both receivers are
  registered, so every broadcast is delivered. In the code the chat screen
  registers `ussdResponseReceiver` in `onResume` and unregisters it in
  `onPause` (MainActivity.java:116-140). A response or error sent while the
  chat screen is paused is dropped. The service has already stored that
  transcript in `lastResponse`, so the same dialog is never reported again.
  Likewise `inputReceiver` exists only after `onServiceConnected`
  (UssdAccessibilityService.java:37-49), and requests sent before it are
  dropped.
- Chat rendering (`ChatAdapter`, `ChatMessage`) is left out. The bot's
  messages are the `Notice` values rather than their exact texts and emoji.
  `Ussd` carries the transcript, and `Failure` carries the error text.
- Accessibility event types are the three cases of `EventKind`, not their
  integer constants.
- Host answers: `performAction` and `performGlobalAction` are oracles that
  return a boolean. Their effect on the dialog is not modelled.
  - Within one search the oracle is fixed.
  - The retry click in `handleUserInput` gets its own oracle, `retryHost`,
    because the dialog may have changed after the first attempt.
- Null nodes: null children and a null class name are absent from the
  model. A null class name reads as "", and a null child is dropped when
  the tree is captured.
- Strings.Lower: models `toLowerCase` for ASCII letters only, independent of
  locale, and one character for one. Java's `toLowerCase()` differs, and
  dialog text does reach it (UssdAccessibilityService.java:156, 196, 276;
  MainActivity.java:150):
  - it depends on the default locale: under a Turkish locale "DISMISS"
    becomes "dısmıss" with dotless i, so it is not a button word, and "EXIT"
    does not cancel;
  - it maps non-ASCII letters, for example U+212A KELVIN SIGN to 'k', so "O"
    followed by U+212A is the button word "ok" in Java but not in the model;
  - it can change the length: U+0130 becomes two characters, so the model's
    `|r| == |s|` is not Java's behaviour.
- Order between broadcasts and host actions: a `Step` keeps the two in
  separate lists, so which came first is not modelled. In the code the
  dismiss click (UssdAccessibilityService.java:109) comes before the
  broadcast (line 114), and the cancel clicks or Back (lines 314-321) come
  before the broadcast (line 328).
- Strings.Split: models `split("\n")` without Java's dropping of trailing
  empty strings. Every caller discards blank lines, so the two agree on
  everything the model states.
- Strings.Trim: its own contract states only that the result is trimmed and
  no longer than the input. `Strings.TrimWindow` states that the result is
  the original between blank-only margins.
