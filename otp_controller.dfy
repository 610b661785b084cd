/**
 * The OTP verification component as an object whose handlers update its
 * fields, as OTPVerification.tsx does through its state setters. Every
 * `setOtp` installs a newly built array and never writes into the current one,
 * so the array a handler captured stays as it was: that is the array the
 * auto-submit of `HandleOtpChange` passes to `HandleSubmit`.
 *
 * Each handler is proved to perform `OtpScreen.Step` for the code as written,
 * so everything proved there about `Step` holds of this object.
 */
module OtpController {
  import opened Wrappers
  import opened JsText
  import opened JsRegex
  import opened OtpScreen

  class OtpVerification {
    /** The user ID carried in the router's location state. */
    const userId: Option<string>
    var otp: array<string>
    var isLoading: bool
    var resendDisabled: bool
    var countdown: int
    var error: string
    /** The box that last received focus through the input references. */
    var focus: int
    /** Handler calls suspended at their `await`, and countdown intervals not yet cleared. */
    var verifying: nat
    var dispatching: nat
    var timers: nat
    /** Where the page has asked the router to go. */
    var route: Route

    function State(): Screen
      reads this, otp
    {
      Screen(userId, otp[..], focus, isLoading, resendDisabled, countdown, error,
             verifying, dispatching, timers, route)
    }

    ghost predicate Valid()
      reads this, otp
    {
      Inv(State())
    }

    /** The first render followed by the session check and the auto-resend effect. */
    constructor (userId: Option<string>)
      ensures Valid() && fresh(otp)
      ensures State() == Mount(userId, AsWritten)
    {
      this.userId := userId;
      otp := new string[CellCount](_ => "");
      isLoading, resendDisabled, countdown, error, focus := false, false, 0, "", 0;
      verifying, dispatching, timers := 0, 0, 0;
      route := VerifyOtp;
      new;
      assert otp[..] == EmptyCells();
      if !SessionPresent(userId) {
        route := Login;
      }
      if SessionPresent(userId) && !resendDisabled && countdown == 0 {
        HandleResendOtp();
      }
    }

    /** `handleOtpChange(index, value)`, the `onChange` of box `index`. */
    method HandleOtpChange(index: int, value: string)
      requires Valid() && 0 <= index < CellCount
      modifies this
      ensures Valid()
      ensures EditAccepted(value) ==> fresh(otp)
      ensures !EditAccepted(value) ==> otp == old(otp)
      ensures State() == Step(old(State()), CellChanged(index, value), AsWritten)
    {
      ghost var s := State();
      if value != "" && !Test(DigitsOnly, value) {
        return;
      }
      EditAcceptedIff(value);
      var before := otp;
      assert before[..] == s.cells;
      var newOtp := new string[CellCount];
      var i := 0;
      while i < CellCount
        modifies newOtp
        invariant 0 <= i <= CellCount
        invariant forall j :: 0 <= j < i ==> newOtp[j] == before[j]
      {
        newOtp[i] := before[i];
        i := i + 1;
      }
      newOtp[index] := LastChar(value);
      assert newOtp[..] == s.cells[index := LastChar(value)];
      otp := newOtp;
      error := "";
      if value != "" && index < LastCell {
        focus := index + 1;
      }
      assert State() == Edited(s, index, value);
      if AllFilled(newOtp[..]) && index == LastCell {
        HandleSubmit(before);
      }
    }

    /** `handleKeyDown(index, e)`, the `onKeyDown` of box `index`. */
    method HandleKeyDown(index: int, key: string)
      requires Valid() && 0 <= index < CellCount
      modifies this
      ensures Valid()
      ensures State() == Step(old(State()), KeyPressed(index, key), AsWritten)
    {
      if key == "Backspace" && otp[index] == "" && index > 0 {
        focus := index - 1;
      }
    }

    /** A paste into box `index`: only the first box has `handlePaste` as its `onPaste`. */
    method Paste(index: int, text: string)
      requires Valid() && 0 <= index < CellCount
      modifies this
      ensures Valid()
      ensures State() == Step(old(State()), Pasted(index, text), AsWritten)
    {
      if index == 0 {
        HandlePaste(text);
      }
    }

    /** `handlePaste`: six digits after trimming replace the boxes and focus the last one. */
    method HandlePaste(text: string)
      requires Valid()
      modifies this
      ensures Valid()
      ensures State() == Step(old(State()), Pasted(0, text), AsWritten)
    {
      ghost var s := State();
      ghost var r := PasteCode(s, text);
      assert Step(s, Pasted(0, text), AsWritten) == r;
      StepKeepsInv(s, Pasted(0, text), AsWritten);
      var pastedData := Trim(text);
      if Test(SixDigits, pastedData) {
        var pastedOtp := SplitChars(pastedData)[..Min(CellCount, |pastedData|)];
        var cells := FilledFrom(pastedOtp);
        assert cells[..] == r.cells;
        otp := cells;
        focus := Min(LastCell, |pastedOtp| - 1);
        assert State() == r;
      }
    }

    /** `[...pastedOtp, ...Array(6 - pastedOtp.length).fill('')]`. */
    static method FilledFrom(pastedOtp: seq<string>) returns (cells: array<string>)
      requires |pastedOtp| <= CellCount
      ensures fresh(cells)
      ensures cells[..] == pastedOtp + seq(CellCount - |pastedOtp|, _ => "")
    {
      cells := new string[CellCount](_ => "");
      var i := 0;
      while i < |pastedOtp|
        invariant 0 <= i <= |pastedOtp|
        invariant forall j :: 0 <= j < i ==> cells[j] == pastedOtp[j]
        invariant forall j :: i <= j < CellCount ==> cells[j] == ""
      {
        cells[i] := pastedOtp[i];
        i := i + 1;
      }
    }

    /**
     * `handleSubmit` up to its `await`, reading the boxes of `read`: the array
     * of the render whose handler called it.
     */
    method HandleSubmit(read: array<string>)
      requires Valid()
      modifies this
      ensures Valid() && otp == old(otp)
      ensures State() == Submit(old(State()), read[..], AsWritten)
      ensures read == old(otp) ==> State() == Step(old(State()), VerifyClicked, AsWritten)
    {
      var otpCode := Join(read[..]);
      if |otpCode| != CellCount {
        error := IncompleteCodeMessage;
        return;
      }
      isLoading := true;
      error := "";
      verifying := verifying + 1;
    }

    /** The rest of `handleSubmit` once the verification settles (`verified` is its outcome). */
    method VerificationReturned(verified: bool)
      requires Valid() && verifying > 0
      modifies this
      ensures Valid()
      ensures State() == Step(old(State()), VerifyReturned(verified), AsWritten)
    {
      if verified {
        route := Dashboard;
      } else {
        error := InvalidCodeMessage;
        otp := new string[CellCount](_ => "");
        assert otp[..] == EmptyCells();
        focus := 0;
      }
      isLoading := false;
      verifying := verifying - 1;
    }

    /** `handleResendOtp` up to its `await`. */
    method HandleResendOtp()
      requires Valid()
      modifies this
      ensures Valid() && otp == old(otp)
      ensures State() == Step(old(State()), ResendClicked, AsWritten)
    {
      if resendDisabled {
        return;
      }
      isLoading := true;
      error := "";
      dispatching := dispatching + 1;
    }

    /** The rest of `handleResendOtp` once the dispatch settles (`sent` is its outcome). */
    method DispatchReturned(sent: bool)
      requires Valid() && dispatching > 0
      modifies this
      ensures Valid()
      ensures State() == Step(old(State()), OtpScreen.DispatchReturned(sent), AsWritten)
    {
      if sent {
        resendDisabled := true;
        countdown := CooldownSeconds;
        timers := timers + 1;
      } else {
        error := SendFailedMessage;
      }
      isLoading := false;
      dispatching := dispatching - 1;
    }

    /**
     * One firing of a countdown interval, then the auto-resend effect, whose
     * dependencies this is the only event to bring back to "enabled, zero".
     */
    method Tick()
      requires Valid() && timers > 0
      modifies this
      ensures Valid()
      ensures State() == Step(old(State()), IntervalFired, AsWritten)
    {
      var prevDisabled, prevCount := resendDisabled, countdown;
      if countdown <= 1 {
        timers := timers - 1;
        resendDisabled := false;
      }
      countdown := NextCount(countdown);
      if (prevDisabled != resendDisabled || prevCount != countdown)
         && SessionPresent(userId) && !resendDisabled && countdown == 0 {
        HandleResendOtp();
      }
    }
  }
}
