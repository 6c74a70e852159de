/** The chat screen: what a typed message does (`sendMessage`) and what a
    broadcast from the service does (`ussdResponseReceiver`), over the one
    flag the screen keeps, `ussdSessionActive`. */
module Chat {
  import opened Options
  import opened Strings

  /** The bot's notices. `Ussd` carries a transcript, `Failure` the error
      text shown after "Error: ". */
  datatype Notice =
    | Cancelling
    | NothingToCancel
    | EnableAccessibility
    | GrantOverlay
    | Starting
    | Processing
    | NoActiveSession
    | Ussd(text: string)
    | SessionEnded
    | Failure(reason: string)

  datatype ChatLine = User(text: string) | Bot(notice: Notice)

  /** What the screen asks of the rest of the system. */
  datatype Command =
    | NoCommand
    | CancelSession            // broadcast `USSD_CANCEL`
    | SendInput(input: string) // broadcast `USSD_INPUT`
    | DialSession(code: string) // dial the USSD code

  /** The overlay that hides the dialog: started, stopped or left alone. */
  datatype Overlay = KeepOverlay | ShowOverlay | HideOverlay

  /** A settings screen the user is sent to. */
  datatype Screen = NoScreen | AccessibilitySettings | OverlaySettings

  /** The outcome of one reaction: the new session flag, the command issued,
      the lines added to the chat, the overlay change and the screen
      opened. */
  datatype ChatStep = ChatStep(active: bool, command: Command, chat: seq<ChatLine>,
                               overlay: Overlay, screen: Screen)

  const SessionCode: string := "*99#"
  const CancelWords: seq<string> := ["cancel", "exit", "quit"]
  const StartWords: seq<string> := ["hello", "start", "hi"]
  const UnknownError: string := "Unknown error"

  /** Nothing happens. */
  function Idle(active: bool): ChatStep {
    ChatStep(active, NoCommand, [], KeepOverlay, NoScreen)
  }

  /** `sendMessage`: the trimmed message is echoed and then, in this order,
      a cancel word ends an active session; a start word opens a session when
      none is active and the accessibility service and the overlay permission
      are both available; any other text is forwarded to an active session.
      A blank message does nothing. */
  function SendMessage(active: bool, typed: string, accessibilityOn: bool, overlayAllowed: bool): (r: ChatStep)
    ensures Trim(typed) == [] ==> r == Idle(active)
    ensures Trim(typed) != [] ==> |r.chat| == 2 && r.chat[0] == User(Trim(typed))
    ensures r.command.CancelSession? <==> active && Lower(Trim(typed)) in CancelWords
    ensures r.command.DialSession? <==>
              !active && Lower(Trim(typed)) in StartWords && accessibilityOn && overlayAllowed
    ensures r.command.SendInput? <==>
              active && Trim(typed) != [] && Lower(Trim(typed)) !in CancelWords
    ensures r.command.SendInput? ==> r.command.input == Trim(typed)
    ensures r.command.DialSession? ==> r.command.code == SessionCode
    ensures r.command.CancelSession? ==> r.chat == [User(Trim(typed)), Bot(Cancelling)]
    ensures !active && Lower(Trim(typed)) in CancelWords ==>
              r.chat == [User(Trim(typed)), Bot(NothingToCancel)]
    ensures !active && Lower(Trim(typed)) in StartWords && !accessibilityOn ==>
              r.chat == [User(Trim(typed)), Bot(EnableAccessibility)] && r.screen == AccessibilitySettings
    ensures !active && Lower(Trim(typed)) in StartWords && accessibilityOn && !overlayAllowed ==>
              r.chat == [User(Trim(typed)), Bot(GrantOverlay)] && r.screen == OverlaySettings
    ensures r.command.DialSession? ==> r.chat == [User(Trim(typed)), Bot(Starting)]
    ensures r.command.SendInput? ==> r.chat == [User(Trim(typed)), Bot(Processing)]
    ensures !active && Trim(typed) != [] && Lower(Trim(typed)) !in CancelWords && Lower(Trim(typed)) !in StartWords ==>
              r.chat == [User(Trim(typed)), Bot(NoActiveSession)]
    ensures r.screen != NoScreen <==>
              !active && Lower(Trim(typed)) in StartWords && !(accessibilityOn && overlayAllowed)
  {
    var text := Trim(typed);
    if text == [] then Idle(active)
    else
      var lower := Lower(text);
      var echo := [User(text)];
      if lower in CancelWords then
        if active then ChatStep(false, CancelSession, echo + [Bot(Cancelling)], HideOverlay, NoScreen)
        else ChatStep(active, NoCommand, echo + [Bot(NothingToCancel)], KeepOverlay, NoScreen)
      else if !active && lower in StartWords then
        if !accessibilityOn then
          ChatStep(active, NoCommand, echo + [Bot(EnableAccessibility)], KeepOverlay, AccessibilitySettings)
        else if !overlayAllowed then
          ChatStep(active, NoCommand, echo + [Bot(GrantOverlay)], KeepOverlay, OverlaySettings)
        else ChatStep(true, DialSession(SessionCode), echo + [Bot(Starting)], ShowOverlay, NoScreen)
      else if active then ChatStep(active, SendInput(text), echo + [Bot(Processing)], KeepOverlay, NoScreen)
      else ChatStep(active, NoCommand, echo + [Bot(NoActiveSession)], KeepOverlay, NoScreen)
  }

  /** The session flag changes only with the command that starts or ends the
      session, and the overlay follows it: shown exactly when a session
      starts, hidden exactly when one is cancelled. */
  lemma SendMessageFlag(active: bool, typed: string, accessibilityOn: bool, overlayAllowed: bool)
    ensures var r := SendMessage(active, typed, accessibilityOn, overlayAllowed);
            && (r.active != active <==> r.command.CancelSession? || r.command.DialSession?)
            && (r.overlay == ShowOverlay <==> r.command.DialSession?)
            && (r.overlay == HideOverlay <==> r.command.CancelSession?)
            && (r.command.CancelSession? ==> !r.active)
            && (r.command.DialSession? ==> r.active)
  {
  }

  /** While a session is active a start word is ordinary input: it is
      forwarded to the dialog. */
  lemma StartWordForwardedWhenActive(typed: string, accessibilityOn: bool, overlayAllowed: bool)
    requires Lower(Trim(typed)) in StartWords
    ensures SendMessage(true, typed, accessibilityOn, overlayAllowed).command == SendInput(Trim(typed))
  {
    var l := Lower(Trim(typed));
    assert l !in CancelWords;
    assert |l| == |Trim(typed)|;
  }

  /** Cancel words are matched without regard to case or surrounding
      blanks. */
  lemma CancelIgnoresCase(a: string, b: string, accessibilityOn: bool, overlayAllowed: bool)
    requires AllSpace(a) && AllSpace(b)
    ensures SendMessage(true, a + "Exit" + b, accessibilityOn, overlayAllowed).command == CancelSession
  {
    var t := Trim(a + "Exit" + b);
    assert t == "Exit" by {
      TrimSpaceSuffix(a + "Exit", b);
      TrimSpacePrefix(a, "Exit");
      TrimTrimmed("Exit");
    }
    assert Lower(t) == "exit";
    assert Lower(t) in CancelWords;
  }

  /** The broadcasts the screen receives (`USSD_RESPONSE` with its `response`
      and `session_end` extras, `USSD_ERROR` with its `error` extra); a
      missing extra is `None`, a missing session-end flag reads as
      `false`. */
  datatype Inbound =
    | ResponseIntent(response: Option<string>, sessionEnd: bool)
    | ErrorIntent(error: Option<string>)

  /** `ussdResponseReceiver.onReceive`: a non-empty response is shown; a
      session end or an error makes the session inactive and hides the
      overlay; an error is always shown, with "Unknown error" standing in for
      a missing text. */
  function OnReceive(active: bool, intent: Inbound): (r: ChatStep)
    ensures r.command == NoCommand && r.screen == NoScreen
    ensures var ends := intent.ErrorIntent? || intent.sessionEnd;
            && r.active == (active && !ends)
            && (r.overlay == HideOverlay <==> ends)
            && (!ends ==> r.overlay == KeepOverlay)
    ensures forall t :: Bot(Ussd(t)) in r.chat <==> intent.ResponseIntent? && intent.response == Some(t) && t != []
    ensures Bot(SessionEnded) in r.chat <==> intent.ResponseIntent? && intent.sessionEnd
    ensures intent.ResponseIntent? ==>
              r.chat == (if intent.response.Some? && intent.response.value != [] then [Bot(Ussd(intent.response.value))] else [])
                        + (if intent.sessionEnd then [Bot(SessionEnded)] else [])
    ensures intent.ErrorIntent? ==> r.chat == [Bot(Failure(intent.error.GetOr(UnknownError)))]
  {
    match intent
    case ResponseIntent(response, sessionEnd) =>
      var shown := if response.Some? && response.value != [] then [Bot(Ussd(response.value))] else [];
      if sessionEnd then ChatStep(false, NoCommand, shown + [Bot(SessionEnded)], HideOverlay, NoScreen)
      else ChatStep(active, NoCommand, shown, KeepOverlay, NoScreen)
    case ErrorIntent(error) =>
      ChatStep(false, NoCommand, [Bot(Failure(error.GetOr(UnknownError)))], HideOverlay, NoScreen)
  }
}
