/**
 * Three places where OTPVerification.tsx does not do what it evidently means to:
 * each with a witness against the code as written and the intended property
 * proved of the corrected variant.
 */
module OtpFindings {
  import opened Wrappers
  import opened JsText
  import opened OtpScreen

  // ------------------------------------------------ 1. stale auto-submit

  /**
   * As written, the auto-submit of line 53 reads the boxes before the edit: it
   * starts a verification only if they were already all filled (the last box
   * was overwritten), and otherwise reports an incomplete code although every
   * box is now filled.
   */
  lemma AsWrittenAutoSubmitReadsOldBoxes(s: Screen, value: string)
    requires ValidCells(s.cells) && AutoSubmits(s, LastCell, value)
    ensures var r := OtpChange(s, LastCell, value, AsWritten);
      AllFilled(r.cells)
      && (r.verifying == s.verifying + 1 <==> AllFilled(s.cells))
      && (!AllFilled(s.cells) ==> r.error == IncompleteCodeMessage && r.isLoading == s.isLoading)
  {
    CodeCompleteIffFilled(s.cells);
  }

  /** Typing the sixth digit into the empty last box: all boxes filled, yet no verification. */
  lemma StaleAutoSubmitCounterexample(s: Screen)
    requires s.cells == ["1", "2", "3", "4", "5", ""] && !s.isLoading
    ensures var r := OtpChange(s, LastCell, "6", AsWritten);
      r.cells == ["1", "2", "3", "4", "5", "6"]
      && r.error == IncompleteCodeMessage && !r.isLoading && r.verifying == s.verifying
  {
    EditAcceptedIff("6");
    assert s.cells[LastCell := "6"] == ["1", "2", "3", "4", "5", "6"];
    assert !AllFilled(s.cells) by { assert s.cells[5] == ""; }
    AsWrittenAutoSubmitReadsOldBoxes(s, "6");
  }

  /**
   * Corrected (the auto-submit reads the edited boxes): completing the last box
   * always starts the verification of the six digits now shown.
   */
  lemma CorrectedAutoSubmitVerifies(s: Screen, value: string)
    requires ValidCells(s.cells) && !s.isLoading && AutoSubmits(s, LastCell, value)
    ensures var r := OtpChange(s, LastCell, value, Corrected);
      r.isLoading && r.error == "" && r.verifying == s.verifying + 1
      && ValidCells(r.cells) && |Join(r.cells)| == CellCount && AllDigits(Join(r.cells))
      && Join(r.cells)[LastCell] == value[|value| - 1]
  {
    EditAcceptedIff(value);
    var cells := s.cells[LastCell := LastChar(value)];
    assert ValidCells(cells);
    JoinOfCells(cells);
  }

  /** A digit typed into a box other than the last: written, error cleared, focus moves on. */
  lemma TypeDigit(s: Screen, i: nat, d: char, v: Variant)
    requires |s.cells| == CellCount && i < LastCell && IsDigit(d) && !s.isLoading
    ensures UiEnabled(s, CellChanged(i, [d]))
    ensures Step(s, CellChanged(i, [d]), v) == s.(cells := s.cells[i := [d]], error := "", focus := i + 1)
  {
    EditAcceptedIff([d]);
  }

  /** Typing 1 to 6 into the six boxes, one box after another. */
  function TypingEvents(): seq<Event> {
    [CellChanged(0, "1"), CellChanged(1, "2"), CellChanged(2, "3"),
     CellChanged(3, "4"), CellChanged(4, "5"), CellChanged(5, "6")]
  }

  /** After the first five digits the boxes read 1 to 5 and the last one is empty. */
  lemma TypingFirstFive(s: Screen, v: Variant) returns (t: Screen)
    requires |s.cells| == CellCount && s.cells == EmptyCells() && !s.isLoading
    ensures t == s.(cells := ["1", "2", "3", "4", "5", ""], error := "", focus := LastCell)
    ensures Run(s, TypingEvents()[..5], v) == Some(t)
  {
    var es := TypingEvents()[..5];
    TypeDigit(s, 0, '1', v);
    var s1 := Step(s, es[0], v);
    TypeDigit(s1, 1, '2', v);
    var s2 := Step(s1, es[1], v);
    TypeDigit(s2, 2, '3', v);
    var s3 := Step(s2, es[2], v);
    TypeDigit(s3, 3, '4', v);
    var s4 := Step(s3, es[3], v);
    TypeDigit(s4, 4, '5', v);
    t := Step(s4, es[4], v);
    assert t.cells == ["1", "2", "3", "4", "5", ""];
    assert es[1..][1..][1..][1..][1..] == [];
  }

  /** The sixth digit, typed into the empty last box after 1 to 5. */
  lemma TypeLastDigit(t: Screen, v: Variant)
    requires t.cells == ["1", "2", "3", "4", "5", ""] && !t.isLoading
    ensures UiEnabled(t, CellChanged(LastCell, "6"))
    ensures var r := Step(t, CellChanged(LastCell, "6"), v);
      r.cells == ["1", "2", "3", "4", "5", "6"]
      && (v == AsWritten ==> r.error == IncompleteCodeMessage && r.verifying == t.verifying)
      && (v == Corrected ==> r.isLoading && r.verifying == t.verifying + 1 && Join(r.cells) == "123456")
  {
    EditAcceptedIff("6");
    var r := Step(t, CellChanged(LastCell, "6"), v);
    assert r == OtpChange(t, LastCell, "6", v);
    assert AutoSubmits(t, LastCell, "6") by {
      assert t.cells[LastCell := "6"] == ["1", "2", "3", "4", "5", "6"];
    }
    if v == AsWritten {
      StaleAutoSubmitCounterexample(t);
    } else {
      CorrectedAutoSubmitVerifies(t, "6");
      JoinOfCells(r.cells);
      assert Join(r.cells) == "123456";
    }
  }

  /**
   * The scenario of typing 1 to 6: as written it ends with every box filled
   * and the incomplete-code message; corrected it starts the verification of
   * "123456".
   */
  lemma TypingScenario(s: Screen, v: Variant)
    requires s.cells == EmptyCells() && !s.isLoading
    ensures var r := Run(s, TypingEvents(), v);
      r.Some? && r.value.cells == ["1", "2", "3", "4", "5", "6"]
      && (v == AsWritten ==> r.value.error == IncompleteCodeMessage && r.value.verifying == s.verifying)
      && (v == Corrected ==> r.value.isLoading && r.value.verifying == s.verifying + 1
                             && Join(r.value.cells) == "123456")
  {
    var t := TypingFirstFive(s, v);
    var last := [CellChanged(LastCell, "6")];
    assert TypingEvents() == TypingEvents()[..5] + last;
    RunAppend(s, TypingEvents()[..5], last, v);
    TypeLastDigit(t, v);
    assert last[1..] == [];
    assert Run(t, last, v) == Some(Step(t, last[0], v));
  }

  // ------------------------------------------------ 2. two verifications in flight

  /** At most one request in flight, and the spinner shows exactly while one is. */
  predicate OneRequest(s: Screen) {
    s.verifying + s.dispatching <= 1 && (s.isLoading <==> s.verifying + s.dispatching == 1)
  }

  /**
   * The events of the witness: the mount dispatch returns, the code is pasted,
   * the cooldown runs down to 1, the user verifies, the last firing re-enables
   * resend and the effect dispatches, the dispatch returns and clears the
   * spinner, and the verify button is enabled again.
   */
  function DoubleVerificationEvents(): seq<Event> {
    [DispatchReturned(true), Pasted(0, "123456")]
    + Ticks(CooldownSeconds - 1)
    + [VerifyClicked, IntervalFired, DispatchReturned(true), VerifyClicked]
  }

  /** The screen the witness reaches just before its last interval firing. */
  predicate ReadyToVerify(s: Screen) {
    ValidCells(s.cells) && AllFilled(s.cells) && SessionPresent(s.userId)
    && !s.isLoading && s.verifying == 0 && s.dispatching == 0
    && s.resendDisabled && s.timers == 1
  }

  /** The mount dispatch returns and the code is pasted: the cooldown has started, all boxes are filled. */
  lemma WitnessPrefix(u: string) returns (s: Screen)
    requires u != ""
    ensures ReadyToVerify(s) && s.countdown == CooldownSeconds
    ensures Run(Mount(Some(u), AsWritten), [DispatchReturned(true), Pasted(0, "123456")], AsWritten) == Some(s)
  {
    var v := AsWritten;
    var s0 := Mount(Some(u), v);
    var s1 := Step(s0, DispatchReturned(true), v);
    assert s1.resendDisabled && s1.countdown == CooldownSeconds && s1.timers == 1 && !s1.isLoading;
    TrimKeepsDigits("123456");
    PasteAcceptedIff("123456");
    s := Step(s1, Pasted(0, "123456"), v);
    var prefix := [DispatchReturned(true), Pasted(0, "123456")];
    assert prefix[1..] == [Pasted(0, "123456")];
    assert [Pasted(0, "123456")][1..] == [];
  }

  /**
   * With one second of cooldown left: verify, the last firing makes the effect
   * dispatch, the dispatch returns and clears the spinner, verify again.
   */
  lemma WitnessSuffix(s: Screen)
    requires ReadyToVerify(s) && s.countdown == 1
    ensures var r := Run(s, [VerifyClicked, IntervalFired, DispatchReturned(true), VerifyClicked], AsWritten);
      r.Some? && r.value.verifying == 2
  {
    var v := AsWritten;
    var tail := [VerifyClicked, IntervalFired, DispatchReturned(true), VerifyClicked];
    CodeCompleteIffFilled(s.cells);
    var s4 := Step(s, VerifyClicked, v);
    assert s4.verifying == 1 && s4.isLoading;
    var s5 := Step(s4, IntervalFired, v);
    assert s5.dispatching == 1 && s5.verifying == 1;
    var s6 := Step(s5, DispatchReturned(true), v);
    assert !s6.isLoading && s6.verifying == 1 && AllFilled(s6.cells);
    var s7 := Step(s6, VerifyClicked, v);
    assert s7.verifying == 2;
    assert tail[1..] == [IntervalFired, DispatchReturned(true), VerifyClicked];
    assert tail[1..][1..] == [DispatchReturned(true), VerifyClicked];
    assert tail[1..][1..][1..] == [VerifyClicked];
    assert tail[1..][1..][1..][1..] == [];
  }

  /**
   * As written, events the rendered page allows start a second verification
   * while the first is still awaiting its outcome.
   */
  lemma DoubleVerificationTrace(u: string)
    requires u != ""
    ensures var r := Run(Mount(Some(u), AsWritten), DoubleVerificationEvents(), AsWritten);
      r.Some? && r.value.verifying == 2
  {
    var v := AsWritten;
    var s0 := Mount(Some(u), v);
    var prefix := [DispatchReturned(true), Pasted(0, "123456")];
    var tail := [VerifyClicked, IntervalFired, DispatchReturned(true), VerifyClicked];
    var s2 := WitnessPrefix(u);
    TicksCountDown(s2, CooldownSeconds - 1, v);
    var s3 := s2.(countdown := 1);
    WitnessSuffix(s3);
    RunAppend(s0, prefix, Ticks(CooldownSeconds - 1), v);
    RunAppend(s0, prefix + Ticks(CooldownSeconds - 1), tail, v);
  }

  /** Corrected (submit and resend ignored while loading): every event keeps one request at a time. */
  lemma CorrectedStepKeepsOneRequest(s: Screen, e: Event)
    requires |s.cells| == CellCount && Deliverable(s, e) && OneRequest(s)
    ensures OneRequest(Step(s, e, Corrected))
  {
  }

  /** Corrected: from any mount, whatever the user and the event loop do, at most one request is in flight. */
  lemma {:induction false} CorrectedAtMostOneRequest(s: Screen, es: seq<Event>)
    requires |s.cells| == CellCount && OneRequest(s)
    ensures Run(s, es, Corrected).Some? ==> OneRequest(Run(s, es, Corrected).value)
    decreases |es|
  {
    if es != [] && UiEnabled(s, es[0]) {
      CorrectedStepKeepsOneRequest(s, es[0]);
      CorrectedAtMostOneRequest(Step(s, es[0], Corrected), es[1..]);
    }
  }

  /** Corrected: the screen starts with at most one request in flight and no interval. */
  lemma MountHasOneRequest(userId: Option<string>)
    ensures OneRequest(Mount(userId, Corrected)) && OneCooldown(Mount(userId, Corrected))
  {
  }

  // ------------------------------------------------ 3. two cooldown intervals

  /**
   * The resend link (line 222) is disabled only by `resendDisabled`, so it can
   * be clicked while the mount dispatch is pending; both dispatches succeed and
   * each starts its own interval (line 116) on the one shared countdown.
   */
  function DoubleCooldownEvents(): seq<Event> {
    [ResendClicked, DispatchReturned(true), DispatchReturned(true)]
  }

  /** As written: two intervals count the same 30-second cooldown down. */
  lemma DoubleCooldownTrace(u: string)
    requires u != ""
    ensures var r := Run(Mount(Some(u), AsWritten), DoubleCooldownEvents(), AsWritten);
      r.Some? && r.value.timers == 2 && r.value.resendDisabled
      && r.value.countdown == CooldownSeconds && r.value.dispatching == 0
  {
    var v := AsWritten;
    var es := DoubleCooldownEvents();
    var s0 := Mount(Some(u), v);
    assert UiEnabled(s0, es[0]);
    var s1 := Step(s0, es[0], v);
    assert s1.dispatching == 2;
    var s2 := Step(s1, es[1], v);
    assert s2.timers == 1 && s2.dispatching == 1 && s2.resendDisabled;
    var s3 := Step(s2, es[2], v);
    assert s3.timers == 2 && s3.dispatching == 0;
    assert es[1..] == [DispatchReturned(true), DispatchReturned(true)];
    assert es[1..][1..] == [DispatchReturned(true)];
    assert es[1..][1..][1..] == [];
  }

  /**
   * One cooldown at a time: an interval runs exactly while resend is disabled,
   * and no dispatch is pending then.
   */
  predicate OneCooldown(s: Screen) {
    s.timers == (if s.resendDisabled then 1 else 0) && (s.dispatching > 0 ==> !s.resendDisabled)
  }

  /** Corrected: every event keeps one cooldown interval at most. */
  lemma CorrectedStepKeepsOneCooldown(s: Screen, e: Event)
    requires |s.cells| == CellCount && Deliverable(s, e) && OneRequest(s) && OneCooldown(s)
    ensures OneCooldown(Step(s, e, Corrected))
  {
    var h := Handle(s, e, Corrected);
    assert OneCooldown(h);
  }

  /** Corrected: from a mount, every run of events leaves at most one interval counting down. */
  lemma {:induction false} CorrectedAtMostOneCooldown(s: Screen, es: seq<Event>)
    requires |s.cells| == CellCount && OneRequest(s) && OneCooldown(s)
    ensures var r := Run(s, es, Corrected);
      r.Some? ==> OneCooldown(r.value) && r.value.timers <= 1
    decreases |es|
  {
    if es != [] && UiEnabled(s, es[0]) {
      CorrectedStepKeepsOneRequest(s, es[0]);
      CorrectedStepKeepsOneCooldown(s, es[0]);
      CorrectedAtMostOneCooldown(Step(s, es[0], Corrected), es[1..]);
    }
  }
}
