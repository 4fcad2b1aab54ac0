/** Whole runs of the loop on concrete exchanges with the model. */
module Scenarios {
  import opened Wrappers
  import opened Text
  import opened Confirmation
  import opened Translator
  import opened Session

  /** A closing message "Form submitted." without any call ends the loop. */
  lemma FormSubmittedIsFinal(r: Response)
    requires r == Response("r2", [OtherItem("message")], Some("Form submitted."))
    ensures Final(r)
  {
    FormSubmittedDoesNotAsk(OutputText(r));
    assert ComputerCalls(r.output) == [];
  }

  /** "Should I submit the form now?" starts with the trigger "should i submit". */
  lemma ShouldISubmitNowText(text: string)
    requires text == "Should I submit the form now?"
    ensures AsksToSubmit(text)
  {
    forall k | 0 <= k < |Triggers[1]| ensures LowerChar(text[k]) == Triggers[1][k] {
    }
    LowerOccursAt(text, Triggers[1], 0);
    AsksWhenTriggerAt(text, 1, 0);
  }

  /** "Should I submit the form now?" without any call is a confirmation request. */
  lemma ShouldISubmitNowAsks(r: Response)
    requires r == Response("r0", [OtherItem("message")], Some("Should I submit the form now?"))
    ensures !Final(r) && !HasCalls(r)
  {
    assert ComputerCalls(r.output) == [];
    assert !HasCalls(r);
    var text := OutputText(r);
    ShouldISubmitNowText(text);
  }

  /** The click is performed on the only page and reported under its call id. */
  lemma ClickStep(r0: Response, env: Env, shot: Image)
    requires r0 == Response("r0", [ComputerCall("c1", Click(100, 200, "left"), None)], None)
    requires env == Env([[7]], None, (p: PageId) => if p == 7 then shot else [])
    ensures !Final(r0)
    ensures Step(r0, 7, env) == Continue(
      Request(ModelName, "r0", Tools, [ComputerCallOutput("c1", shot, None)], "auto"),
      7, [On(7, MouseClick(100, 200, "left"))])
  {
    assert ComputerCalls(r0.output) == [r0.output[0]];
  }

  /** The model clicks at (100, 200) with the left button, the screenshot of the page is
      reported under the call's id, and the model's plain "Form submitted." ends the loop
      with that response. */
  lemma ClickThenFinish(r0: Response, r1: Response, env: Env, shot: Image)
    requires r0 == Response("r0", [ComputerCall("c1", Click(100, 200, "left"), None)], None)
    requires r1 == Response("r2", [OtherItem("message")], Some("Form submitted."))
    requires shot != []
    requires env == Env([[7]], None, (p: PageId) => if p == 7 then shot else [])
    ensures Run(r0, 7, [Turn(env, r1)]) == Trace(
      [Request(ModelName, "r0", Tools, [ComputerCallOutput("c1", shot, None)], "auto")],
      [7, 7], Finished(r1))
  {
    FormSubmittedIsFinal(r1);
    ClickStep(r0, env, shot);
    OneStepThenStop(r0, 7, env, r1);
  }


  /** Answering the question: the fixed confirmation continues the same conversation and
      touches nothing in the browser. */
  lemma ConfirmStep(r0: Response, env: Env)
    requires r0 == Response("r0", [OtherItem("message")], Some("Should I submit the form now?"))
    ensures !Final(r0)
    ensures Step(r0, 3, env) == Continue(
      Request(ModelName, "r0", Tools, [UserMessage("user", "Yes, submit the form now.")], "auto"),
      3, [])
  {
    ShouldISubmitNowAsks(r0);
  }

  /** The click proposed after the confirmation runs in the tab opened meanwhile, and
      its safety check is acknowledged on the payload that reports it. */
  lemma ClickInNewTabStep(r1: Response, env: Env, shot: Image)
    requires r1 == Response("r1", [ComputerCall("c9", Click(512, 600, "left"),
                                                Some([SafetyCheck("sc1", "confirm", "Submitting a form")]))], None)
    requires env == Env([[3, 4]], None, (p: PageId) => if p == 4 then shot else [])
    ensures !Final(r1)
    ensures Step(r1, 3, env) == Continue(
      Request(ModelName, "r1", Tools, [ComputerCallOutput("c9", shot, Some(["sc1"]))], "auto"),
      4, [On(4, MouseClick(512, 600, "left"))])
  {
    assert ComputerCalls(r1.output) == [r1.output[0]];
    assert CheckIds([SafetyCheck("sc1", "confirm", "Submitting a form")]) == ["sc1"];
  }

  /** A run of one step that ends on the reply, with the page the step left active. */
  lemma OneStepThenStop(r0: Response, page: PageId, e0: Env, r1: Response)
    requires !Final(r0) && Final(r1)
    ensures var s0 := Step(r0, page, e0);
      Run(r0, page, [Turn(e0, r1)]) == Trace([s0.request], [page, s0.page], Finished(r1))
  {
    var turns := [Turn(e0, r1)];
    var s0 := Step(r0, page, e0);
    RunStops(r1, s0.page, turns[1..]);
    RunSteps(r0, page, turns);
  }

  /** A run of two steps that ends on the second reply, with the page threaded through. */
  lemma TwoStepsThenStop(r0: Response, page: PageId, e0: Env, r1: Response, e1: Env, r2: Response)
    requires !Final(r0) && !Final(r1) && Final(r2)
    ensures var s0 := Step(r0, page, e0);
      var s1 := Step(r1, s0.page, e1);
      Run(r0, page, [Turn(e0, r1), Turn(e1, r2)])
        == Trace([s0.request, s1.request], [page, s0.page, s1.page], Finished(r2))
  {
    var turns := [Turn(e0, r1), Turn(e1, r2)];
    var s0 := Step(r0, page, e0);
    var s1 := Step(r1, s0.page, e1);
    assert turns[1..] == [Turn(e1, r2)];
    RunStops(r2, s1.page, turns[1..][1..]);
    RunSteps(r1, s0.page, turns[1..]);
    RunSteps(r0, page, turns);
  }

  /** The model asks "Should I submit the form now?"; the loop answers with the fixed
      confirmation once, leaving page 3 active, then issues the click the model proposes
      next on the tab opened meanwhile (page 4), reports that tab's screenshot with the
      safety check echoed, and stops on the model's closing text with page 4 active. */
  lemma ConfirmThenClick(r0: Response, r1: Response, r2: Response, e0: Env, e1: Env, shot: Image)
    requires r0 == Response("r0", [OtherItem("message")], Some("Should I submit the form now?"))
    requires r1 == Response("r1", [ComputerCall("c9", Click(512, 600, "left"),
                                                Some([SafetyCheck("sc1", "confirm", "Submitting a form")]))], None)
    requires r2 == Response("r2", [OtherItem("message")], Some("Form submitted."))
    requires shot != []
    requires e1 == Env([[3, 4]], None, (p: PageId) => if p == 4 then shot else [])
    ensures var t := Run(r0, 3, [Turn(e0, r1), Turn(e1, r2)]);
      && t == Trace(
           [Request(ModelName, "r0", Tools, [UserMessage("user", "Yes, submit the form now.")], "auto"),
            Request(ModelName, "r1", Tools, [ComputerCallOutput("c9", shot, Some(["sc1"]))], "auto")],
           [3, 3, 4], Finished(r2))
      && Step(r1, t.pages[1], e1).performed == [On(4, MouseClick(512, 600, "left"))]
  {
    ConfirmStep(r0, e0);
    ClickInNewTabStep(r1, e1, shot);
    FormSubmittedIsFinal(r2);
    TwoStepsThenStop(r0, 3, e0, r1, e1, r2);
  }


  /** A click that opens a tab: page 3 is active, page 4 has just opened, so the click is
      issued on page 4 and page 4's screenshot is reported. */
  lemma FirstClickOpensTab(r0: Response, env: Env, shot: Image)
    requires r0 == Response("r0", [ComputerCall("c1", Click(10, 20, "left"), None)], None)
    requires env == Env([[3, 4]], None, (p: PageId) => if p == 4 then shot else [])
    ensures !Final(r0)
    ensures Step(r0, 3, env) == Continue(
      Request(ModelName, "r0", Tools, [ComputerCallOutput("c1", shot, None)], "auto"),
      4, [On(4, MouseClick(10, 20, "left"))])
  {
    assert ComputerCalls(r0.output) == [r0.output[0]];
  }

  /** A click with only page 4 open, starting from page 4. */
  lemma SecondClickStaysOnTab(r1: Response, env: Env, shot: Image)
    requires r1 == Response("r1", [ComputerCall("c2", Click(30, 40, "left"), None)], None)
    requires env == Env([[4]], None, (p: PageId) => if p == 4 then shot else [])
    ensures !Final(r1)
    ensures Step(r1, 4, env) == Continue(
      Request(ModelName, "r1", Tools, [ComputerCallOutput("c2", shot, None)], "auto"),
      4, [On(4, MouseClick(30, 40, "left"))])
  {
    assert ComputerCalls(r1.output) == [r1.output[0]];
  }

  /** The page is threaded from step to step: the first click adopts the tab it finds
      newly open (page 4); the second click, with only that tab listed, runs from page 4
      and reports page 4's second screenshot. A loop that started every step from the
      initial page 3 would report page 3's (empty) screenshot instead. */
  lemma TwoClicksFollowNewTab(r0: Response, r1: Response, r2: Response, e0: Env, e1: Env,
                              first: Image, second: Image)
    requires r0 == Response("r0", [ComputerCall("c1", Click(10, 20, "left"), None)], None)
    requires r1 == Response("r1", [ComputerCall("c2", Click(30, 40, "left"), None)], None)
    requires r2 == Response("r2", [OtherItem("message")], Some("Form submitted."))
    requires first != [] && second != []
    requires e0 == Env([[3, 4]], None, (p: PageId) => if p == 4 then first else [])
    requires e1 == Env([[4]], None, (p: PageId) => if p == 4 then second else [])
    ensures var t := Run(r0, 3, [Turn(e0, r1), Turn(e1, r2)]);
      && t == Trace(
           [Request(ModelName, "r0", Tools, [ComputerCallOutput("c1", first, None)], "auto"),
            Request(ModelName, "r1", Tools, [ComputerCallOutput("c2", second, None)], "auto")],
           [3, 4, 4], Finished(r2))
      && Step(r1, t.pages[1], e1).performed == [On(4, MouseClick(30, 40, "left"))]
      && e1.capture(3) != second
  {
    FirstClickOpensTab(r0, e0, first);
    SecondClickStaysOnTab(r1, e1, second);
    FormSubmittedIsFinal(r2);
    TwoStepsThenStop(r0, 3, e0, r1, e1, r2);
  }

}
