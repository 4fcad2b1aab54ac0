/** The loop `computer_use_loop`: inspect the latest response, either stop, auto-confirm,
    or execute the first computer call and report a screenshot back. The model API is
    replaced by the responses it returns; the browser by the pages it reports, the
    primitive (if any) that fails, and the screenshot it would capture of a page. */
module Session {
  import opened Wrappers
  import opened Confirmation
  import opened Translator

  /** Screenshot bytes, kept opaque (their base64 data-URL encoding is not modelled). */
  type Image = seq<bv8>

  datatype SafetyCheck = SafetyCheck(id: string, code: string, message: string)

  /** One item of a response's `output`: a computer call, or anything else (messages,
      reasoning), which the loop ignores. */
  datatype OutputItem =
    | ComputerCall(callId: string, action: Action, pendingSafetyChecks: Option<seq<SafetyCheck>>)
    | OtherItem(kind: string)

  datatype Response = Response(id: string, output: seq<OutputItem>, outputText: Option<string>)

  /** The one tool declared on every request. */
  datatype Tool = ComputerUsePreview(displayWidth: nat, displayHeight: nat, environment: string)

  const Tools: seq<Tool> := [ComputerUsePreview(1024, 768, "browser")]
  const ModelName: string := "computer-use-preview"
  const Truncation: string := "auto"
  const ConfirmText: string := "Yes, submit the form now."

  /** One item of a request's `input`: a user message, or a `computer_call_output`
      whose `acknowledged_safety_checks` key is absent (None) or present. */
  datatype InputItem =
    | UserMessage(role: string, content: string)
    | ComputerCallOutput(callId: string, screenshot: Image, acknowledgedSafetyChecks: Option<seq<string>>)

  datatype Request = Request(model: string, previousResponseId: string, tools: seq<Tool>,
                             input: seq<InputItem>, truncation: string)

  /** What the browser does during one step: the pages of each context, the primitive
      (if any) that raises, and the screenshot a page would give. */
  datatype Env = Env(contexts: seq<seq<PageId>>, failAt: Option<nat>, capture: PageId -> Image)

  datatype StepResult =
    | Terminal(response: Response)
    | Continue(request: Request, page: PageId, performed: seq<Issued>)

  /** `[item for item in output if item.type == "computer_call"]`. */
  function ComputerCalls(output: seq<OutputItem>): (calls: seq<OutputItem>)
    ensures forall c :: c in calls ==> c.ComputerCall?
    ensures forall c :: c in calls <==> c in output && c.ComputerCall?
    ensures |calls| <= |output|
  {
    if output == [] then []
    else if output[0].ComputerCall? then [output[0]] + ComputerCalls(output[1..])
    else ComputerCalls(output[1..])
  }

  /** The call the loop acts on is the earliest computer call of the output. */
  lemma {:induction false} FirstCallIsEarliest(output: seq<OutputItem>)
    requires ComputerCalls(output) != []
    ensures exists j ::
              && 0 <= j < |output|
              && output[j] == ComputerCalls(output)[0]
              && forall k :: 0 <= k < j ==> !output[k].ComputerCall?
    decreases |output|
  {
    if !output[0].ComputerCall? {
      FirstCallIsEarliest(output[1..]);
      var j :| 0 <= j < |output[1..]| && output[1..][j] == ComputerCalls(output[1..])[0]
        && forall k :: 0 <= k < j ==> !output[1..][k].ComputerCall?;
      assert output[j + 1] == ComputerCalls(output)[0];
      forall k | 0 <= k < j + 1 ensures !output[k].ComputerCall? {
        if k > 0 {
          assert output[k] == output[1..][k - 1];
        }
      }
    } else {
      assert output[0] == ComputerCalls(output)[0];
    }
  }

  predicate HasCalls(r: Response)
  {
    ComputerCalls(r.output) != []
  }

  function FirstCall(r: Response): (c: OutputItem)
    requires HasCalls(r)
    ensures c.ComputerCall? && c in r.output
  {
    ComputerCalls(r.output)[0]
  }

  /** `getattr(response, "output_text", "") or ""`. */
  function OutputText(r: Response): string
  {
    r.outputText.GetOr("")
  }

  /** A response ends the loop: no computer call and no request for confirmation. */
  predicate Final(r: Response)
    ensures Final(r) <==> !HasCalls(r) && !MentionsTrigger(OutputText(r))
  {
    AsksToSubmitIff(OutputText(r));
    !HasCalls(r) && !AsksToSubmit(OutputText(r))
  }

  /** The ids of the pending checks, in order (`[{"id": sc.id} for sc in ...]`). */
  function CheckIds(checks: seq<SafetyCheck>): (ids: seq<string>)
    ensures |ids| == |checks|
    ensures forall i :: 0 <= i < |checks| ==> ids[i] == checks[i].id
  {
    if checks == [] then [] else [checks[0].id] + CheckIds(checks[1..])
  }

  /** The ids a call asks to be acknowledged (`getattr(..., []) or []`). */
  function PendingIds(call: OutputItem): seq<string>
    requires call.ComputerCall?
  {
    CheckIds(call.pendingSafetyChecks.GetOr([]))
  }

  /** The payload reporting `call`'s outcome with `shot`; the acknowledgement key is
      added only when there is something to acknowledge. */
  function CallOutput(call: OutputItem, shot: Image): (item: InputItem)
    requires call.ComputerCall?
    ensures item.ComputerCallOutput? && item.callId == call.callId && item.screenshot == shot
    ensures item.acknowledgedSafetyChecks.None? <==> call.pendingSafetyChecks.GetOr([]) == []
  {
    var acks := PendingIds(call);
    ComputerCallOutput(call.callId, shot, if acks == [] then None else Some(acks))
  }

  /** The ids a payload acknowledges; none when the key is absent. */
  function Acknowledged(item: InputItem): seq<string>
  {
    if item.ComputerCallOutput? then item.acknowledgedSafetyChecks.GetOr([]) else []
  }

  /** Safety ids are echoed exactly: every pending id, in order, no more; and the key
      is absent precisely when there are none. */
  lemma EchoesPendingIds(call: OutputItem, shot: Image)
    requires call.ComputerCall?
    ensures var item := CallOutput(call, shot);
      var pending := call.pendingSafetyChecks.GetOr([]);
      && |Acknowledged(item)| == |pending|
      && (forall i :: 0 <= i < |pending| ==> Acknowledged(item)[i] == pending[i].id)
      && (item.acknowledgedSafetyChecks.None? <==> pending == [])
  {
  }

  /** Every request continues from `r`, declares the same tool, and truncates automatically. */
  function Continuing(r: Response, item: InputItem): Request
  {
    Request(ModelName, r.id, Tools, [item], Truncation)
  }

  /** What the request sent after `r` must look like: tied to `r`, and carrying either the
      auto-confirmation or the outcome of `r`'s first call with exactly its safety ids. */
  ghost predicate Answers(req: Request, r: Response)
  {
    && req.model == ModelName
    && req.previousResponseId == r.id
    && req.tools == Tools
    && req.truncation == "auto"
    && |req.input| == 1
    && if HasCalls(r) then
         && req.input[0].ComputerCallOutput?
         && req.input[0].callId == FirstCall(r).callId
         && Acknowledged(req.input[0]) == PendingIds(FirstCall(r))
         && (req.input[0].acknowledgedSafetyChecks.None? <==> PendingIds(FirstCall(r)) == [])
       else
         && req.input[0] == UserMessage("user", ConfirmText)
         && Acknowledged(req.input[0]) == []
  }

  /** One iteration of the loop's body. */
  function Step(r: Response, page: PageId, env: Env): (s: StepResult)
    ensures s.Terminal? <==> Final(r)
    ensures s.Terminal? ==> s.response == r
    ensures s.Continue? ==> Answers(s.request, r)
    ensures s.Continue? && !HasCalls(r) ==> s.page == page && s.performed == []
    ensures s.Continue? && HasCalls(r) ==>
      var h := HandleModelAction(env.contexts, page, FirstCall(r).action, env.failAt);
      && s.page == h.page
      && s.performed == h.performed
      && s.request.input[0].screenshot == env.capture(h.page)
  {
    if !HasCalls(r) then
      if AsksToSubmit(OutputText(r)) then
        Continue(Continuing(r, UserMessage("user", ConfirmText)), page, [])
      else
        Terminal(r)
    else
      var call := FirstCall(r);
      var h := HandleModelAction(env.contexts, page, call.action, env.failAt);
      var item := CallOutput(call, env.capture(h.page));
      EchoesPendingIds(call, env.capture(h.page));
      Continue(Continuing(r, item), h.page, h.performed)
  }

  /** Only the first call is executed: calls after it in the same response make no
      difference to the step. */
  lemma OnlyFirstCallMatters(r: Response, extra: seq<OutputItem>, page: PageId, env: Env)
    requires HasCalls(r)
    ensures var r' := r.(output := r.output + extra);
      HasCalls(r') && FirstCall(r') == FirstCall(r) && Step(r', page, env) == Step(r, page, env)
  {
    ComputerCallsAppend(r.output, extra);
  }

  lemma {:induction false} ComputerCallsAppend(a: seq<OutputItem>, b: seq<OutputItem>)
    ensures ComputerCalls(a + b) == ComputerCalls(a) + ComputerCalls(b)
    decreases |a|
  {
    if a != [] {
      assert (a + b)[0] == a[0];
      assert (a + b)[1..] == a[1..] + b;
      ComputerCallsAppend(a[1..], b);
      if a[0].ComputerCall? {
        assert ComputerCalls(a) == [a[0]] + ComputerCalls(a[1..]);
        assert ComputerCalls(a + b) == [a[0]] + ComputerCalls(a[1..] + b);
        assert ComputerCalls(a + b) == [a[0]] + (ComputerCalls(a[1..]) + ComputerCalls(b));
        assert [a[0]] + (ComputerCalls(a[1..]) + ComputerCalls(b))
            == ([a[0]] + ComputerCalls(a[1..])) + ComputerCalls(b);
      } else {
        assert ComputerCalls(a) == ComputerCalls(a[1..]);
        assert ComputerCalls(a + b) == ComputerCalls(a[1..] + b);
      }
    } else {
      assert a + b == b;
    }
  }

  /** One round trip of the loop: what the browser did, then the model's reply. */
  datatype Turn = Turn(env: Env, reply: Response)

  /** How a bounded run ends: the loop returned a response, or the turns ran out first. */
  datatype Outcome = Finished(response: Response) | OutOfTurns(response: Response)

  /** A bounded run: the requests sent, the page active at the start of each step (and,
      last, the page active when the run ends), and how it ended. */
  datatype Trace = Trace(sent: seq<Request>, pages: seq<PageId>, outcome: Outcome)

  /** The response the loop is looking at after `i` round trips. */
  function Current(r: Response, turns: seq<Turn>, i: nat): Response
    requires i <= |turns|
  {
    if i == 0 then r else turns[i - 1].reply
  }

  /** The `while True` loop over a finite sequence of round trips: the requests it sends,
      and how it ends. */
  function Run(r: Response, page: PageId, turns: seq<Turn>): (t: Trace)
    ensures |t.sent| <= |turns|
    ensures t.outcome.response == Current(r, turns, |t.sent|)
    ensures t.outcome.Finished? <==> Final(t.outcome.response)
    ensures t.outcome.OutOfTurns? ==> |t.sent| == |turns|
    ensures |t.pages| == |t.sent| + 1 && t.pages[0] == page
    decreases |turns|
  {
    if Final(r) then
      Trace([], [page], Finished(r))
    else if turns == [] then
      Trace([], [page], OutOfTurns(r))
    else
      var s := Step(r, page, turns[0].env);
      var rest := Run(turns[0].reply, s.page, turns[1..]);
      var n := |rest.sent|;
      assert Current(turns[0].reply, turns[1..], n) == Current(r, turns, n + 1) by {
        if n > 0 {
          assert turns[1..][n - 1] == turns[n];
        }
      }
      Trace([s.request] + rest.sent, [page] + rest.pages, rest.outcome)
  }

  /** Request `req` and page `after` are what the loop body produces on response `c`
      with page `before` active. */
  ghost predicate StepGives(c: Response, before: PageId, env: Env, req: Request, after: PageId)
  {
    var s := Step(c, before, env);
    s.Continue? && req == s.request && after == s.page
  }

  /** The page carries over: step `i` of a run is the loop body applied to the response
      then current and to the page the previous step returned (the page passed in, for
      the first step); it sends request `i` and leaves page `i + 1` active. */
  lemma {:induction false} RunFollowsSteps(r: Response, page: PageId, turns: seq<Turn>, i: nat)
    ensures var t := Run(r, page, turns);
      i < |t.sent| ==>
        StepGives(Current(r, turns, i), t.pages[i], turns[i].env, t.sent[i], t.pages[i + 1])
    decreases i
  {
    if i < |Run(r, page, turns).sent| {
      var s := Step(r, page, turns[0].env);
      var t := Run(r, page, turns);
      var rest := Run(turns[0].reply, s.page, turns[1..]);
      assert t.sent == [s.request] + rest.sent;
      assert t.pages == [page] + rest.pages;
      if i > 0 {
        RunFollowsSteps(turns[0].reply, s.page, turns[1..], i - 1);
        assert turns[i] == turns[1..][i - 1];
      }
    }
  }

  /** On a step that executes a call, the translator runs on the page the previous step
      left active; the page it returns is active for the next step, and the screenshot
      sent is of that page. On a confirmation step the page does not change. */
  lemma RunThreadsPage(r: Response, page: PageId, turns: seq<Turn>, i: nat)
    ensures var t := Run(r, page, turns);
      i < |t.sent| ==>
      var c := Current(r, turns, i);
      && (HasCalls(c) ==>
            var h := HandleModelAction(turns[i].env.contexts, t.pages[i], FirstCall(c).action,
                                       turns[i].env.failAt);
            && t.pages[i + 1] == h.page
            && |t.sent[i].input| == 1
            && t.sent[i].input[0].ComputerCallOutput?
            && t.sent[i].input[0].screenshot == turns[i].env.capture(h.page))
      && (!HasCalls(c) ==> t.pages[i + 1] == t.pages[i])
  {
    RunFollowsSteps(r, page, turns, i);
    var t := Run(r, page, turns);
    if i < |t.sent| {
      assert StepGives(Current(r, turns, i), t.pages[i], turns[i].env, t.sent[i], t.pages[i + 1]);
    }
  }

  /** Each request of a run answers the response just before it, and the loop only
      sends a request after a response that is not final. */
  lemma {:induction false} RunAnswers(r: Response, page: PageId, turns: seq<Turn>)
    ensures var t := Run(r, page, turns);
      forall i :: 0 <= i < |t.sent| ==>
        !Final(Current(r, turns, i)) && Answers(t.sent[i], Current(r, turns, i))
    decreases |turns|
  {
    if !Final(r) && turns != [] {
      var s := Step(r, page, turns[0].env);
      RunAnswers(turns[0].reply, s.page, turns[1..]);
      var t := Run(r, page, turns);
      var rest := Run(turns[0].reply, s.page, turns[1..]);
      assert t.sent == [s.request] + rest.sent;
      forall i | 0 < i < |t.sent|
        ensures !Final(Current(r, turns, i)) && Answers(t.sent[i], Current(r, turns, i))
      {
        assert t.sent[i] == rest.sent[i - 1];
        assert Current(r, turns, i) == Current(turns[0].reply, turns[1..], i - 1);
      }
    }
  }

  /** A run stops at once, sending nothing, on a final response. */
  lemma RunStops(r: Response, page: PageId, turns: seq<Turn>)
    requires Final(r)
    ensures Run(r, page, turns) == Trace([], [page], Finished(r))
  {
  }

  /** A run on a response that is not final sends that step's request and then runs on
      from the model's reply, on the page the step left active. */
  lemma RunSteps(r: Response, page: PageId, turns: seq<Turn>)
    requires !Final(r) && turns != []
    ensures var s := Step(r, page, turns[0].env);
      var rest := Run(turns[0].reply, s.page, turns[1..]);
      Run(r, page, turns) == Trace([s.request] + rest.sent, [page] + rest.pages, rest.outcome)
  {
  }

  /** Every request of a run continues from the response just before it, with the same
      tool and automatic truncation. */
  lemma RequestsChain(r: Response, page: PageId, turns: seq<Turn>)
    ensures var t := Run(r, page, turns);
      && (t.sent != [] ==> t.sent[0].previousResponseId == r.id)
      && (forall i :: 0 < i < |t.sent| ==> t.sent[i].previousResponseId == turns[i - 1].reply.id)
      && (forall i :: 0 <= i < |t.sent| ==> t.sent[i].tools == Tools && t.sent[i].truncation == "auto")
  {
    RunAnswers(r, page, turns);
  }

  /** The auto-confirmation is not bounded: a model that keeps asking is answered with the
      same message on every turn and the loop never finishes. */
  lemma {:induction false} ConfirmsForever(r: Response, page: PageId, turns: seq<Turn>)
    requires !HasCalls(r) && AsksToSubmit(OutputText(r))
    requires forall i :: 0 <= i < |turns| ==>
      !HasCalls(turns[i].reply) && AsksToSubmit(OutputText(turns[i].reply))
    ensures var t := Run(r, page, turns);
      && t.outcome.OutOfTurns?
      && |t.sent| == |turns|
      && forall i :: 0 <= i < |t.sent| ==> t.sent[i].input == [UserMessage("user", ConfirmText)]
    decreases |turns|
  {
    if turns != [] {
      ConfirmsForever(turns[0].reply, page, turns[1..]);
    }
  }
}
