# Computer-use browser loop: a Dafny model

This project models the control loop of a small client that lets a remote
"computer-use" model operate a browser. The loop is `computer_use_loop` in `app4.py`,
and `app5.py` carries an identical copy at the same line numbers. It has three parts:

- **The confirmation heuristic** `_asks_to_submit` (module `Confirmation`). It decides
  whether the model's free text, on a turn without any computer call, is asking for
  permission to submit. The test is a literal, case-insensitive match against seven
  trigger phrases.
- **The action translator** `handle_model_action` (module `Translator`). It first
  switches to the newest tab when a new one has appeared. Then it turns one action
  (`click`, `scroll`, `keypress`, `type`, `wait`, or anything else) into the browser
  primitives it performs, normalising the key names "enter" and "space". An exception
  is contained and the current page is returned.
- **The loop** (module `Session`). Each step inspects the latest response. With no
  computer call, it either auto-confirms with "Yes, submit the form now." or stops.
  With calls, it executes only the first one and reports a screenshot under that
  call's id, echoing the call's pending safety-check ids. Every request continues from
  the current response id, declares the same 1024×768 "browser" tool, and asks for
  "auto" truncation.

The model API and Playwright are replaced by data:

- A response is a value: its id, its output items and its `output_text`.
- `Env` describes one browser step: the pages of each context, which primitive (if
  any) raises, and the screenshot each page would give.
- `Run` drives the loop over a finite sequence of `Turn`s, each an `Env` plus the
  model's reply.

`Text` supplies ASCII lower-casing and the substring test. `Wrappers` supplies
`Option`. `Scenarios` states the loop's outcome on three concrete exchanges.

Two behaviours of the code worth stating plainly:

- On a failed action the code returns the `page` binding as it stands
  (app4.py:110-112). That is the new tab when the switch on line 68 already ran, not
  necessarily the page passed in. `HandleModelAction` and `NewTabIsAdopted` state this.
- The tab switch checks only that more than one page is open and the last one is not
  the active page (app4.py:67). It never compares against a previous page count.
  `SwitchTab` models this.

## Model

| member | source | states |
|---|---|---|
| Text.ContainsIff | app4.py:129 | the left-to-right scan used for `p in t` succeeds exactly when `p` occurs at some offset of `t` (both directions) |
| Confirmation.AsksToSubmitIff | app4.py:115-129 | the heuristic fires exactly when one of the seven listed triggers occurs in the lower-cased text; the empty-text guard agrees with this because no trigger is empty |
| Confirmation.EmptyNeverAsks | app4.py:117-118 | empty text never asks for confirmation |
| Confirmation.AbsentNeverAsks | app4.py:141-142 | a missing or empty `output_text`, read as `""`, never triggers the auto-confirmation |
| Confirmation.CaseInsensitive | app4.py:119-129 | two texts that agree once lower-cased always get the same verdict |
| Confirmation.UpperCaseSameVerdict | app5.py:119-129 | upper-casing a text does not change the verdict |
| Confirmation.AsksWhenTriggerAt | app4.py:119-129 | one trigger occurring at any offset of the lower-cased text is enough for the heuristic to fire |
| Confirmation.ShouldISubmitAsks | app4.py:122 | "Should I SUBMIT?" asks for confirmation |
| Confirmation.FormSubmittedDoesNotAsk | app4.py:120-129 | "Form submitted." contains no trigger and does not ask |
| Confirmation.NotReadyStillAsks | app4.py:125 | the match is literal: "I am not ready to submit yet." still fires the heuristic |
| Confirmation.FirstTrigger | app4.py:120-129 | the scan of `any(...)` visits the triggers in order and stops at the first one that occurs; its verdict agrees with `AsksToSubmit` |
| Text.Contains | app4.py:129 | the scan behind `p in t`: a found `p` is never longer than `t`, and a prefix is always found (full meaning in `Text.ContainsIff`) |
| Confirmation.AnyIn | app4.py:129 | `any(p in t for p in ps)`: an empty phrase list never matches (full meaning in `Confirmation.AnyInIff`) |
| Confirmation.AnyInIff | app4.py:129 | `any` over the list holds exactly when some listed phrase is contained in the text (both directions) |
| Confirmation.AsksToSubmit | app4.py:115-129 | the heuristic; a verdict of true implies the text is non-empty and one of the seven triggers occurs in its lower-cased form |
| Translator.NormalizeKey | app4.py:89-94 | a key is forwarded unchanged unless its lower case is "enter" or "space" |
| Translator.Commands | app4.py:71-106 | the dispatch match; at most two primitives except for keypress, which issues one per key |
| Session.Final | app4.py:140-162 | the loop stops on a response exactly when it has no computer call and none of the triggers occurs in its lower-cased text |
| Session.CallOutput | app4.py:184-193 | the `computer_call_output` item carries the call's id and the screenshot; its acknowledgement key is present exactly when the call has pending checks |
| Session.CheckIds | app4.py:171-172 | the acknowledged ids are the pending checks' ids, same length, same order |
| Scenarios.ClickInNewTabStep | app5.py:64-193 | with a second tab open, the proposed click is issued once, on the new tab, which becomes active, and the payload reports its screenshot with the safety id acknowledged |
| Translator.SwitchTab | app4.py:66-68 | with more than one page open, the last page is active afterwards; with one or none, the active page is unchanged |
| Translator.SwitchTabIdempotent | app5.py:66-68 | switching again against the same page list changes nothing |
| Translator.SwitchTabStaysKnown | app4.py:67-68 | the active page is either the one passed in or an open page |
| Translator.NormalizeKeySpec | app4.py:89-94 | only "enter" and "space" (in any case) are rewritten; a key presses Enter exactly when its lower case is "enter", and a space exactly when its lower case is "space" or it is a space already |
| Translator.NormalizeKeyCaseInsensitive | app5.py:89-92 | spellings of "enter" or "space" that differ only in case press the same key |
| Translator.EnterSpellings | app4.py:89-90 | "Enter", "ENTER" and "enter" each press Enter |
| Translator.SpaceSpellings | app4.py:91-92 | "Space", "SPACE" and "space" each press a literal space |
| Translator.KeyPresses | app4.py:85-94 | one `Press` per key, in input order, each key normalised |
| Translator.KeyPressesAppend | app5.py:87-94 | pressing a list of keys is pressing its parts in order, with nothing dropped or reordered |
| Translator.DispatchTable | app4.py:71-106 | click is one click at (x, y) with the button; scroll is a move to (x, y) then a scroll by the deltas; keypress is the key presses; type is one injection of the whole text; wait is a 2-second sleep; any other type does nothing |
| Translator.CommandKinds | app5.py:71-106 | conversely, each kind of primitive comes only from its own action kind: a text injection always carries the action's whole text, and a sleep is always 2 seconds from a wait |
| Translator.CommandsEmptyIff | app4.py:85-106 | an action performs no primitive exactly when it is unrecognised or a keypress with no keys |
| Translator.HandleModelAction | app4.py:60-112 | the tab switch happens before dispatch: every primitive performed is issued on the page that is returned; the primitives performed are a prefix of the dispatch table's list, the part before the failing one when one fails and all of it when nothing raises; an exception is raised exactly when there is no browser context or a primitive in range fails, and it is contained; the returned page is the switched page, or the page passed in when the pages could not be read |
| Translator.OnPage | app5.py:71-106 | the primitives of one call, in order, each issued on the same page |
| Translator.SingleTabKeepsPage | app4.py:66-67 | with at most one open page the returned page is the one passed in, whatever the action and failure |
| Translator.NewTabIsAdopted | app5.py:64-112 | when a new last tab differs from the active page, every primitive is issued on the new tab, and the new tab is returned even when the action then fails |
| Translator.UnrecognizedIsNoOp | app4.py:105-108 | an action whose tag is none of the five handled ones performs nothing, raises nothing and returns the possibly switched page |
| Session.ComputerCalls | app4.py:137 | the filtered list holds exactly the computer-call items of the output |
| Session.FirstCallIsEarliest | app4.py:165 | the call the loop acts on is the earliest computer call of the output |
| Session.EchoesPendingIds | app4.py:171-193 | the payload acknowledges exactly the pending safety-check ids, in order; the key is absent exactly when there are none |
| Session.Step | app4.py:137-201 | a step ends the loop exactly on a final response; otherwise it sends a request that answers the response, whose acknowledgement key is present exactly when the first call has pending checks; on a call, the reported screenshot is of the page the translator left active and the page carries over |
| Session.OnlyFirstCallMatters | app5.py:164-177 | calls after the first in the same response change nothing in the step |
| Session.Run | app4.py:134-205 | a run sends at most one request per turn; it finishes exactly when it reaches a final response, which it returns; it runs out of turns only after using every turn; it records one active page per step plus the last, starting with the page passed in |
| Session.RunFollowsSteps | app4.py:134-201 | the `page` variable is threaded through the loop: step `i` is the loop body applied to the response then current and to the page step `i - 1` returned; it sends request `i` and leaves page `i + 1` active |
| Session.RunThreadsPage | app5.py:164-193 | on a call step the translator runs on the page the previous step left active, the page it returns is active for the next step, and the screenshot sent is of that page; a confirmation step leaves the page unchanged |
| Session.RunAnswers | app4.py:145-201 | each request of a run answers the response just before it, which was not final; a computer-call payload echoes that response's safety ids and no other request carries any |
| Session.RequestsChain | app5.py:145-201 | every request continues from the response just before it, declares the same tool list and asks for "auto" truncation |
| Session.ConfirmsForever | app4.py:140-156 | a model that keeps asking gets the same confirmation on every turn and the loop never finishes: the auto-confirmation is unbounded |
| Scenarios.ClickThenFinish | app4.py:134-205 | click(100, 200, "left"), reported under its call id, followed by "Form submitted." ends the loop with that response after one request |
| Scenarios.ConfirmThenClick | app5.py:134-205 | "Should I submit the form now?" is answered once with the confirmation and page 3 stays active; the click that follows is issued on the new tab (page 4), which the run then keeps active, its screenshot is reported and its safety id is echoed; the run then finishes |
| Scenarios.TwoClicksFollowNewTab | app4.py:134-205 | the first click adopts the tab it finds newly opened; the second click, with only that tab listed, runs from it and reports its second screenshot, which the initial page could not have given |

## Left out

- `main` (app4.py:210-245): launching the browser, setting the viewport, navigating
  and making the first request is I/O set-up with no logic to check.
- `show_image` and `get_screenshot`: screenshots are opaque byte sequences supplied by
  `Env.capture`.
- The base64 encoding and the `data:image/png;base64,` URL (app4.py:182-189): library
  encoding. The payload carries the raw screenshot bytes.
- `client.responses.create` is a network call. Its replies are the given `Turn`s.
  Errors from it, and from taking the screenshot, would abort the whole loop. The
  model does not represent them.
- The one-second settle delay after each action (app4.py:178), the `print` logging and
  the JavaScript text passed to `page.evaluate`: side effects with no checkable logic.
  The scroll is modelled as the `ScrollBy` primitive it performs.
- `Session.Run`: the unbounded `while True` is bounded by the length of the turn
  sequence. When the turns run out the result is `OutOfTurns`, which the source does
  not have.
- `Text.Lower`: lower-casing is ASCII only; Python's `str.lower` covers all of Unicode.
- `output_text` is an independent field of `Response`. In the SDK it is derived from
  the message items of `output`.
- `Translator.HandleModelAction`: the only failures modelled are a missing browser
  context and a failing primitive. Failures inside `print` or attribute access are
  not modelled.
- `Translator.Issued`: the wait's two-second sleep is tagged with the active page like
  every other primitive, although `time.sleep` does not touch the page.
- `app1.py` makes a single request and has no logic.
