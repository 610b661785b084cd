/**
 * The OTP verification screen (frontend/src/pages/OTPVerification.tsx) as a
 * state machine over values. `Screen` is the component state plus the work the
 * event loop still owes it (verifications and dispatches awaiting their
 * outcome, countdown intervals still running); `Step` is one event delivered to
 * the page followed by the re-render and the auto-resend effect. The class in
 * otp_controller.dfy is proved to implement `Step` for the code as written.
 */
module OtpScreen {
  import opened Wrappers
  import opened JsText
  import opened JsRegex

  const CellCount: nat := 6
  const LastCell: nat := 5
  const CooldownSeconds: nat := 30

  const IncompleteCodeMessage: string := "Please enter a 6-digit OTP code"
  const InvalidCodeMessage: string := "Invalid OTP. Please try again."
  const SendFailedMessage: string := "Failed to send OTP. Please try again."

  /** `/^\d*$/`, the filter of a cell edit. */
  const DigitsOnly: Pattern := Pattern([], IsDigit, 0, None)

  /** `/^\d{6}$/`, the filter of a paste. */
  const SixDigits: Pattern := Pattern([], IsDigit, 6, Some(6))

  // ---------------------------------------------------------------- cells

  /** One input box: empty or a single ASCII digit. */
  predicate IsCell(c: string) { c == "" || (|c| == 1 && IsDigit(c[0])) }

  predicate ValidCells(cells: seq<string>) {
    |cells| == CellCount && forall i :: 0 <= i < |cells| ==> IsCell(cells[i])
  }

  /** `otp.every(num => num)`: no box is the empty string. */
  predicate AllFilled(cells: seq<string>) {
    forall i :: 0 <= i < |cells| ==> cells[i] != ""
  }

  /** `Array(6).fill('')`. */
  function EmptyCells(): (r: seq<string>)
    ensures ValidCells(r) && !AllFilled(r)
    ensures forall i :: 0 <= i < |r| ==> r[i] == ""
  {
    var cells := seq(CellCount, _ => "");
    assert cells[0] == "";
    cells
  }

  /**
   * `otp.join('')`. Boxes that each hold at most one digit join to a digit
   * string no longer than the number of boxes.
   */
  function Join(cells: seq<string>): (r: string)
    ensures (forall i :: 0 <= i < |cells| ==> IsCell(cells[i])) ==> |r| <= |cells| && AllDigits(r)
  {
    if cells == [] then "" else cells[0] + Join(cells[1..])
  }

  /**
   * Joining boxes that each hold at most one digit gives a string as long as
   * the number of boxes exactly when no box is empty, and then its i-th digit
   * is the content of box i.
   */
  lemma {:induction false} JoinOfCells(cells: seq<string>)
    requires forall i :: 0 <= i < |cells| ==> IsCell(cells[i])
    ensures |Join(cells)| == |cells| <==> AllFilled(cells)
    ensures AllFilled(cells) ==> forall i :: 0 <= i < |cells| ==> Join(cells)[i] == cells[i][0]
  {
    if cells != [] {
      var rest := cells[1..];
      JoinOfCells(rest);
      assert Join(cells) == cells[0] + Join(rest);
      assert AllFilled(cells) <==> cells[0] != "" && AllFilled(rest) by {
        if cells[0] != "" && AllFilled(rest) {
          forall i | 0 <= i < |cells| ensures cells[i] != "" {
            if i > 0 { assert cells[i] == rest[i - 1]; }
          }
        }
      }
      if AllFilled(cells) {
        forall i | 0 <= i < |cells| ensures Join(cells)[i] == cells[i][0] {
          if i > 0 { assert cells[i] == rest[i - 1]; }
        }
      }
    }
  }

  /** The length test of `handleSubmit` (line 80) is exactly "every box is filled". */
  lemma CodeCompleteIffFilled(cells: seq<string>)
    requires ValidCells(cells)
    ensures |Join(cells)| == CellCount <==> AllFilled(cells)
    ensures AllDigits(Join(cells))
  {
    JoinOfCells(cells);
  }

  /** `value && !/^\d*$/.test(value)` is false: the edit is not ignored. */
  predicate EditAccepted(value: string)
    ensures value == "" ==> EditAccepted(value)
    ensures EditAccepted(value) ==> IsCell(LastChar(value))
  {
    TestMeans(DigitsOnly, value);
    !(value != "" && !Test(DigitsOnly, value))
  }

  /** An edit is ignored exactly when the input holds a character that is not an ASCII digit. */
  lemma EditAcceptedIff(value: string)
    ensures EditAccepted(value) <==> AllDigits(value)
  {
    TestMeans(DigitsOnly, value);
  }

  /** `/^\d{6}$/.test(text.trim())`. */
  predicate PasteAccepted(text: string)
    ensures PasteAccepted(text) ==> ValidCells(SplitChars(Trim(text)))
  {
    Test(SixDigits, Trim(text))
  }

  lemma PasteAcceptedIff(text: string)
    ensures PasteAccepted(text) <==> |Trim(text)| == CellCount && AllDigits(Trim(text))
  {
    TestMeans(SixDigits, Trim(text));
  }

  /** `text.split('')`: one string per character. */
  function SplitChars(t: string): (r: seq<string>)
    ensures |r| == |t| && forall i :: 0 <= i < |t| ==> r[i] == [t[i]]
  {
    seq(|t|, i requires 0 <= i < |t| => [t[i]])
  }

  function Min(a: int, b: int): int { if a <= b then a else b }

  // ---------------------------------------------------------------- state

  /** The routes the screen navigates to. */
  datatype Route = VerifyOtp | Dashboard | Login

  /**
   * `userId` comes from the router's location state; `cells`, `isLoading`,
   * `resendDisabled`, `countdown` and `error` are the component state of lines
   * 24-28; `focus` is the box the input references last focused. `verifying`
   * and `dispatching` count the `handleSubmit` and `handleResendOtp` calls
   * suspended at their `await`; `timers` counts the countdown intervals not yet
   * cleared. `route` is where the page has asked the router to go.
   */
  datatype Screen = Screen(
    userId: Option<string>,
    cells: seq<string>,
    focus: int,
    isLoading: bool,
    resendDisabled: bool,
    countdown: int,
    error: string,
    verifying: nat,
    dispatching: nat,
    timers: nat,
    route: Route)

  /**
   * The code exactly as written, or with the two corrections of the findings:
   * auto-submit reads the edited boxes, and a submit or resend is ignored while
   * a request is in flight.
   */
  datatype Variant = AsWritten | Corrected

  /**
   * `!userId` is false: the user ID is neither missing (`undefined`) nor the
   * empty string, the two falsy values it can take.
   */
  predicate SessionPresent(userId: Option<string>)
    ensures SessionPresent(userId) <==> userId != None && userId != Some("")
  {
    userId.Some? && userId.value != ""
  }

  /** The properties every reachable screen has. */
  predicate Inv(s: Screen) {
    ValidCells(s.cells)
    && 0 <= s.focus < CellCount
    && 0 <= s.countdown <= CooldownSeconds
    && (s.countdown > 0 ==> s.resendDisabled)
    && (s.resendDisabled ==> s.timers > 0)
    && (s.isLoading ==> s.verifying + s.dispatching > 0)
  }

  // ---------------------------------------------------------------- handlers

  /** `setOtp(newOtp)`, `setError('')` and the forward focus move of `handleOtpChange`. */
  function Edited(s: Screen, index: int, value: string): (r: Screen)
    requires 0 <= index < |s.cells|
    ensures |r.cells| == |s.cells| && r.cells[index] == LastChar(value)
    ensures forall j :: 0 <= j < |s.cells| && j != index ==> r.cells[j] == s.cells[j]
    ensures r == s.(cells := r.cells, error := "", focus := r.focus)
    ensures value == "" || index == LastCell ==> r.focus == s.focus
  {
    s.(cells := s.cells[index := LastChar(value)],
       error := "",
       focus := if value != "" && index < LastCell then index + 1 else s.focus)
  }

  /** The condition of line 52: the edited boxes are all filled and the last box was edited. */
  predicate AutoSubmits(s: Screen, index: int, value: string)
    requires 0 <= index < |s.cells|
    ensures AutoSubmits(s, index, value) ==>
      index == LastCell && value != "" && forall j :: 0 <= j < index ==> s.cells[j] != ""
  {
    var edited := s.cells[index := LastChar(value)];
    assert forall j :: 0 <= j < |s.cells| && j != index ==> edited[j] == s.cells[j];
    assert AllFilled(edited) ==> edited[index] != "";
    EditAccepted(value) && AllFilled(edited) && index == LastCell
  }

  /**
   * `handleSubmit` up to its `await`, reading the boxes `read`. As written it
   * has no guard of its own; the corrected variant ignores it while loading.
   */
  function Submit(s: Screen, read: seq<string>, v: Variant): (r: Screen)
    ensures r.cells == s.cells && r.focus == s.focus && r.route == s.route && r.userId == s.userId
    ensures r.resendDisabled == s.resendDisabled && r.countdown == s.countdown
    ensures r.dispatching == s.dispatching && r.timers == s.timers
    ensures v == Corrected && s.isLoading ==> r == s
    ensures !(v == Corrected && s.isLoading) && |Join(read)| != CellCount ==> r == s.(error := IncompleteCodeMessage)
    ensures !(v == Corrected && s.isLoading) && |Join(read)| == CellCount ==>
      r.isLoading && r.error == "" && r.verifying == s.verifying + 1
  {
    if v == Corrected && s.isLoading then s
    else if |Join(read)| != CellCount then s.(error := IncompleteCodeMessage)
    else s.(isLoading := true, error := "", verifying := s.verifying + 1)
  }

  /**
   * `handleOtpChange(index, value)`. As written the auto-submit reads the boxes
   * of the render the handler belongs to, i.e. those before the edit.
   */
  function OtpChange(s: Screen, index: int, value: string, v: Variant): (r: Screen)
    requires 0 <= index < |s.cells|
    ensures !EditAccepted(value) ==> r == s
    ensures EditAccepted(value) ==>
      |r.cells| == |s.cells| && r.cells[index] == LastChar(value)
      && (forall j :: 0 <= j < |s.cells| && j != index ==> r.cells[j] == s.cells[j])
    ensures EditAccepted(value) ==>
      r.focus == if value != "" && index < LastCell then index + 1 else s.focus
    ensures EditAccepted(value) && !AutoSubmits(s, index, value) ==>
      r.error == "" && r.isLoading == s.isLoading && r.verifying == s.verifying
    ensures r.resendDisabled == s.resendDisabled && r.countdown == s.countdown
    ensures r.dispatching == s.dispatching && r.timers == s.timers
    ensures r.route == s.route && r.userId == s.userId
  {
    if !EditAccepted(value) then s
    else
      var e := Edited(s, index, value);
      if AllFilled(e.cells) && index == LastCell then
        Submit(e, if v == AsWritten then s.cells else e.cells, v)
      else e
  }

  /** `handleKeyDown`: Backspace in an empty box other than the first moves focus back. */
  function KeyDown(s: Screen, index: int, key: string): (r: Screen)
    requires 0 <= index < |s.cells|
    ensures r == s.(focus := r.focus)
    ensures r.focus == if key == "Backspace" && s.cells[index] == "" && index > 0 then index - 1 else s.focus
  {
    if key == "Backspace" && s.cells[index] == "" && index > 0 then s.(focus := index - 1) else s
  }

  /** `handlePaste`: six digits after trimming fill the boxes; anything else is ignored. */
  function PasteCode(s: Screen, text: string): (r: Screen)
    ensures PasteAccepted(text) ==>
      r == s.(cells := r.cells, focus := LastCell)
      && ValidCells(r.cells) && AllFilled(r.cells)
      && forall i :: 0 <= i < CellCount ==> r.cells[i] == [Trim(text)[i]]
    ensures !PasteAccepted(text) ==> r == s
  {
    var t := Trim(text);
    if Test(SixDigits, t) then
      PasteAcceptedIff(text);
      var pasted := SplitChars(t)[..Min(CellCount, |t|)];
      s.(cells := pasted + seq(CellCount - |pasted|, _ => ""), focus := Min(LastCell, |pasted| - 1))
    else s
  }

  /** `onPaste` is bound to the first box only; a paste into another box reaches no handler. */
  function PasteInto(s: Screen, index: int, text: string): (r: Screen)
    ensures index != 0 ==> r == s
    ensures index == 0 ==> r == PasteCode(s, text)
  {
    if index == 0 then PasteCode(s, text) else s
  }

  /** `handleResendOtp` up to its `await`. */
  function ResendOtp(s: Screen, v: Variant): (r: Screen)
    ensures s.resendDisabled ==> r == s
    ensures v == Corrected && s.isLoading ==> r == s
    ensures !s.resendDisabled && !(v == Corrected && s.isLoading) ==>
      r == s.(isLoading := true, error := "", dispatching := s.dispatching + 1)
  {
    if s.resendDisabled || (v == Corrected && s.isLoading) then s
    else s.(isLoading := true, error := "", dispatching := s.dispatching + 1)
  }

  /** The rest of `handleSubmit`, once the verification outcome arrives. */
  function VerifyOutcome(s: Screen, verified: bool): (r: Screen)
    requires s.verifying > 0
    ensures !r.isLoading && r.verifying == s.verifying - 1
    ensures verified ==> r == s.(isLoading := false, verifying := s.verifying - 1, route := Dashboard)
    ensures !verified ==>
      r.cells == EmptyCells() && r.focus == 0 && r.error == InvalidCodeMessage && r.route == s.route
    ensures r.resendDisabled == s.resendDisabled && r.countdown == s.countdown
    ensures r.dispatching == s.dispatching && r.timers == s.timers
  {
    var r := if verified then s.(route := Dashboard)
             else s.(error := InvalidCodeMessage, cells := EmptyCells(), focus := 0);
    r.(isLoading := false, verifying := s.verifying - 1)
  }

  /** The rest of `handleResendOtp`, once the dispatch outcome arrives. */
  function DispatchOutcome(s: Screen, sent: bool): (r: Screen)
    requires s.dispatching > 0
    ensures !r.isLoading && r.dispatching == s.dispatching - 1
    ensures sent ==> r.resendDisabled && r.countdown == CooldownSeconds && r.timers == s.timers + 1
    ensures sent ==> r.error == s.error
    ensures !sent ==>
      r.error == SendFailedMessage && r.resendDisabled == s.resendDisabled
      && r.countdown == s.countdown && r.timers == s.timers
    ensures r.cells == s.cells && r.focus == s.focus && r.verifying == s.verifying && r.route == s.route
  {
    var r := if sent then s.(resendDisabled := true, countdown := CooldownSeconds, timers := s.timers + 1)
             else s.(error := SendFailedMessage);
    r.(isLoading := false, dispatching := s.dispatching - 1)
  }

  /** The updater passed to `setCountdown` by the interval. */
  function NextCount(c: int): (r: int)
    ensures r >= 0
    ensures c >= 1 ==> r == c - 1
    ensures c <= 1 ==> r == 0
  {
    if c <= 1 then 0 else c - 1
  }

  /** One firing of a countdown interval; the interval that reaches zero clears itself. */
  function IntervalTick(s: Screen): (r: Screen)
    requires s.timers > 0
    ensures r.countdown == NextCount(s.countdown)
    ensures s.countdown <= 1 ==> !r.resendDisabled && r.timers == s.timers - 1
    ensures s.countdown > 1 ==> r.resendDisabled == s.resendDisabled && r.timers == s.timers
    ensures r == s.(countdown := r.countdown, resendDisabled := r.resendDisabled, timers := r.timers)
  {
    if s.countdown <= 1 then s.(countdown := NextCount(s.countdown), resendDisabled := false, timers := s.timers - 1)
    else s.(countdown := NextCount(s.countdown))
  }

  // ---------------------------------------------------------------- events

  /** What the page can receive: user input, outcomes of awaited calls, interval firings. */
  datatype Event =
    | CellChanged(index: int, value: string)
    | KeyPressed(index: int, key: string)
    | Pasted(index: int, text: string)
    | VerifyClicked
    | ResendClicked
    | VerifyReturned(verified: bool)
    | DispatchReturned(sent: bool)
    | IntervalFired

  /** The event names an existing box, or a suspended call or running interval that exists. */
  predicate Deliverable(s: Screen, e: Event) {
    match e
    case CellChanged(i, _) => 0 <= i < CellCount
    case KeyPressed(i, _) => 0 <= i < CellCount
    case Pasted(i, _) => 0 <= i < CellCount
    case VerifyReturned(_) => s.verifying > 0
    case DispatchReturned(_) => s.dispatching > 0
    case IntervalFired => s.timers > 0
    case _ => true
  }

  /**
   * The event can also come from the rendered page: the boxes are disabled while
   * loading (line 188), the verify button while loading or while a box is empty
   * (line 205), the resend link while resend is disabled (line 222).
   */
  predicate UiEnabled(s: Screen, e: Event)
    ensures UiEnabled(s, e) ==> Deliverable(s, e)
    ensures s.isLoading && UiEnabled(s, e) ==> !e.CellChanged? && !e.KeyPressed? && !e.Pasted? && !e.VerifyClicked?
    ensures e == ResendClicked ==> (UiEnabled(s, e) <==> !s.resendDisabled)
  {
    Deliverable(s, e)
    && match e
       case CellChanged(_, _) => !s.isLoading
       case KeyPressed(_, _) => !s.isLoading
       case Pasted(_, _) => !s.isLoading
       case VerifyClicked => !s.isLoading && AllFilled(s.cells)
       case ResendClicked => !s.resendDisabled
       case _ => true
  }

  /** The handler the event runs. */
  function Handle(s: Screen, e: Event, v: Variant): Screen
    requires |s.cells| == CellCount && Deliverable(s, e)
  {
    match e
    case CellChanged(i, value) => OtpChange(s, i, value, v)
    case KeyPressed(i, key) => KeyDown(s, i, key)
    case Pasted(i, text) => PasteInto(s, i, text)
    case VerifyClicked => Submit(s, s.cells, v)
    case ResendClicked => ResendOtp(s, v)
    case VerifyReturned(ok) => VerifyOutcome(s, ok)
    case DispatchReturned(ok) => DispatchOutcome(s, ok)
    case IntervalFired => IntervalTick(s)
  }

  /**
   * The effect of lines 135-139, run after a render in which one of its
   * dependencies changed (`userId` never does).
   */
  function AutoResend(before: Screen, after: Screen, v: Variant): (r: Screen)
    ensures before.resendDisabled == after.resendDisabled && before.countdown == after.countdown ==> r == after
  {
    if (before.resendDisabled != after.resendDisabled || before.countdown != after.countdown)
       && SessionPresent(after.userId) && !after.resendDisabled && after.countdown == 0
    then ResendOtp(after, v)
    else after
  }

  /** One event, then the re-render and the effect. */
  function Step(s: Screen, e: Event, v: Variant): (r: Screen)
    requires |s.cells| == CellCount && Deliverable(s, e)
    ensures |r.cells| == CellCount && r.userId == s.userId
  {
    AutoResend(s, Handle(s, e, v), v)
  }

  /** The first render, before the effects run. */
  function Fresh(userId: Option<string>): Screen {
    Screen(userId, EmptyCells(), 0, false, false, 0, "", 0, 0, 0, VerifyOtp)
  }

  /**
   * Mounting the screen: the session check of lines 32-37 sends a page without
   * a user ID back to the login page; the auto-resend effect runs once and, with
   * a user ID, starts a dispatch.
   */
  function Mount(userId: Option<string>, v: Variant): (r: Screen)
    ensures Inv(r) && r.cells == EmptyCells() && r.focus == 0 && r.verifying == 0 && r.timers == 0
    ensures r.route == (if SessionPresent(userId) then VerifyOtp else Login)
    ensures SessionPresent(userId) <==> r.dispatching == 1
    ensures r.isLoading <==> SessionPresent(userId)
  {
    var s := Fresh(userId);
    var checked := if SessionPresent(userId) then s else s.(route := Login);
    if SessionPresent(userId) && !checked.resendDisabled && checked.countdown == 0 then ResendOtp(checked, v)
    else checked
  }

  /**
   * Entering with a user ID fires one dispatch by itself; when it succeeds the
   * 30-second cooldown starts and the spinner stops.
   */
  lemma MountDispatchesOnce(userId: Option<string>)
    requires SessionPresent(userId)
    ensures var s := Mount(userId, AsWritten);
      s.dispatching == 1 && s.isLoading && s.route == VerifyOtp
      && var t := Step(s, DispatchReturned(true), AsWritten);
         t.countdown == CooldownSeconds && t.resendDisabled && t.timers == 1
         && t.dispatching == 0 && !t.isLoading && Inv(t)
  {
  }

  /** Feeds events that the rendered page allows, one after another; `None` if one is not allowed. */
  function Run(s: Screen, es: seq<Event>, v: Variant): (r: Option<Screen>)
    requires |s.cells| == CellCount
    ensures r.Some? ==> |r.value.cells| == CellCount
    decreases |es|
  {
    if es == [] then Some(s)
    else if UiEnabled(s, es[0]) then Run(Step(s, es[0], v), es[1..], v)
    else None
  }

  lemma {:induction false} RunAppend(s: Screen, a: seq<Event>, b: seq<Event>, v: Variant)
    requires |s.cells| == CellCount
    ensures Run(s, a + b, v) == match Run(s, a, v) case None => None case Some(t) => Run(t, b, v)
    decreases |a|
  {
    if a != [] {
      assert (a + b)[0] == a[0] && (a + b)[1..] == a[1..] + b;
      if UiEnabled(s, a[0]) {
        RunAppend(Step(s, a[0], v), a[1..], b, v);
      }
    } else {
      assert a + b == b;
    }
  }

  // ---------------------------------------------------------------- properties

  /** Every event keeps the invariant, whichever variant runs. */
  lemma StepKeepsInv(s: Screen, e: Event, v: Variant)
    requires Inv(s) && Deliverable(s, e)
    ensures Inv(Step(s, e, v))
  {
    var h := Handle(s, e, v);
    match e {
      case CellChanged(i, value) =>
        if EditAccepted(value) {
          EditAcceptedIff(value);
          assert IsCell(LastChar(value));
          assert ValidCells(h.cells);
        }
      case Pasted(i, text) =>
      case _ =>
    }
    assert Inv(h);
  }

  /** Every run of allowed events from an invariant screen ends in an invariant screen. */
  lemma {:induction false} RunKeepsInv(s: Screen, es: seq<Event>, v: Variant)
    requires Inv(s)
    ensures Run(s, es, v).Some? ==> Inv(Run(s, es, v).value)
    decreases |es|
  {
    if es != [] && UiEnabled(s, es[0]) {
      StepKeepsInv(s, es[0], v);
      RunKeepsInv(Step(s, es[0], v), es[1..], v);
    }
  }

  /**
   * As written, an accepted edit runs `handleSubmit` exactly when it is an
   * auto-submit: then the error is either the incomplete-code message or a
   * verification starts; otherwise the error is cleared and nothing starts.
   */
  lemma AutoSubmitIff(s: Screen, index: int, value: string)
    requires ValidCells(s.cells) && 0 <= index < CellCount && EditAccepted(value)
    ensures var r := OtpChange(s, index, value, AsWritten);
      AutoSubmits(s, index, value) <==> (r.error == IncompleteCodeMessage || r.verifying == s.verifying + 1)
  {
  }

  /**
   * `handleSubmit` on well-formed boxes: with an empty box it only reports the
   * incomplete code; with all boxes filled it starts the verification of a
   * six-digit code.
   */
  lemma SubmitChecksCompleteness(s: Screen, read: seq<string>, v: Variant)
    requires ValidCells(read) && !(v == Corrected && s.isLoading)
    ensures !AllFilled(read) ==> Submit(s, read, v) == s.(error := IncompleteCodeMessage)
    ensures AllFilled(read) ==>
      var r := Submit(s, read, v);
      r.isLoading && r.error == "" && r.verifying == s.verifying + 1
      && |Join(read)| == CellCount && AllDigits(Join(read))
  {
    CodeCompleteIffFilled(read);
  }

  /** The code that a paste puts in the boxes is the pasted text without its surrounding blanks. */
  lemma PasteRoundTrip(s: Screen, text: string)
    requires PasteAccepted(text)
    ensures Join(PasteCode(s, text).cells) == Trim(text)
  {
    var r := PasteCode(s, text);
    PasteAcceptedIff(text);
    JoinOfCells(r.cells);
    assert Join(r.cells) == Trim(text);
  }

  /** The count after `n` firings of the updater. */
  function CountAfter(c: int, n: nat): int
    decreases n
  {
    if n == 0 then c else CountAfter(NextCount(c), n - 1)
  }

  /** From a non-negative count `c`, `n` firings leave `c - n`, or 0 once `n >= c`. */
  lemma {:induction false} CountAfterClosedForm(c: nat, n: nat)
    ensures CountAfter(c, n) == if n >= c then 0 else c - n
  {
    if n > 0 {
      CountAfterClosedForm(NextCount(c), n - 1);
    }
  }

  /** From 30 the count stays positive for 29 firings and is exactly 0 at the 30th. */
  lemma CooldownLastsThirtyTicks()
    ensures forall n: nat :: n < CooldownSeconds ==> CountAfter(CooldownSeconds, n) > 0
    ensures CountAfter(CooldownSeconds, CooldownSeconds) == 0
    ensures forall n: nat :: CountAfter(CooldownSeconds, n) >= 0
  {
    forall n: nat ensures CountAfter(CooldownSeconds, n) == if n >= CooldownSeconds then 0 else CooldownSeconds - n {
      CountAfterClosedForm(CooldownSeconds, n);
    }
  }

  /** `n` interval firings. */
  function Ticks(n: nat): (r: seq<Event>)
    ensures |r| == n && forall i :: 0 <= i < n ==> r[i] == IntervalFired
  {
    seq(n, _ => IntervalFired)
  }

  /** While the count stays above 1, each firing of the one interval counts down by one. */
  lemma {:induction false} TicksCountDown(s: Screen, n: nat, v: Variant)
    requires |s.cells| == CellCount && s.resendDisabled && s.timers == 1 && n < s.countdown
    ensures Run(s, Ticks(n), v) == Some(s.(countdown := s.countdown - n))
    decreases n
  {
    if n == 0 {
      assert s.(countdown := s.countdown) == s;
    } else {
      var t := Step(s, IntervalFired, v);
      assert t == s.(countdown := s.countdown - 1);
      assert Ticks(n)[1..] == Ticks(n - 1);
      TicksCountDown(t, n - 1, v);
      assert t.(countdown := t.countdown - (n - 1)) == s.(countdown := s.countdown - n);
    }
  }

  /**
   * After a successful dispatch the resend stays disabled for 29 firings; the
   * 30th re-enables it, stops the interval and, through the effect, fires the
   * automatic resend.
   */
  lemma CooldownThenAutoResend(s: Screen)
    requires |s.cells| == CellCount && s.resendDisabled && s.countdown == CooldownSeconds && s.timers == 1
    requires SessionPresent(s.userId)
    ensures forall n: nat :: n < CooldownSeconds ==>
      Run(s, Ticks(n), AsWritten) == Some(s.(countdown := CooldownSeconds - n))
    ensures var r := Run(s, Ticks(CooldownSeconds), AsWritten);
      r.Some? && r.value.countdown == 0 && !r.value.resendDisabled && r.value.timers == 0
      && r.value.dispatching == s.dispatching + 1 && r.value.isLoading
  {
    forall n: nat | n < CooldownSeconds
      ensures Run(s, Ticks(n), AsWritten) == Some(s.(countdown := CooldownSeconds - n))
    {
      TicksCountDown(s, n, AsWritten);
    }
    var last := s.(countdown := 1);
    TicksCountDown(s, CooldownSeconds - 1, AsWritten);
    assert Ticks(CooldownSeconds) == Ticks(CooldownSeconds - 1) + [IntervalFired];
    RunAppend(s, Ticks(CooldownSeconds - 1), [IntervalFired], AsWritten);
    assert [IntervalFired][1..] == [];
  }
}
