/** The confirmation heuristic `_asks_to_submit`: does the model's free text, on a turn
    without any computer call, ask the human to approve a submission? */
module Confirmation {
  import opened Wrappers
  import opened Text

  /** The seven literal trigger phrases, in the order the source lists them. */
  const Triggers: seq<string> := [
    "should i go ahead and submit",
    "should i submit",
    "do you want me to submit",
    "am about to submit",
    "ready to submit",
    "proceed with submitting",
    "go ahead and submit it"
  ]

  /** `any(p in t for p in ps)`: some phrase of `ps` occurs in `t`. */
  predicate AnyIn(t: string, ps: seq<string>)
    ensures AnyIn(t, ps) ==> |ps| > 0
  {
    |ps| > 0 && (Contains(t, ps[0]) || AnyIn(t, ps[1..]))
  }

  /** The heuristic: false on empty text, otherwise whether the lower-cased text
      contains one of the triggers. */
  predicate AsksToSubmit(text: string)
    ensures AsksToSubmit(text) ==>
      |text| > 0 && exists j :: 0 <= j < |Triggers| && Contains(Lower(text), Triggers[j])
  {
    AnyInIff(Lower(text), Triggers);
    if |text| == 0 then false else AnyIn(Lower(text), Triggers)
  }

  /** The heuristic's meaning, independent of how it scans: some trigger occurs,
      at some offset, in the lower-cased text. */
  ghost predicate MentionsTrigger(text: string)
  {
    exists j, i :: 0 <= j < |Triggers| && OccursAt(Lower(text), Triggers[j], i)
  }

  lemma {:induction false} AnyInIff(t: string, ps: seq<string>)
    ensures AnyIn(t, ps) <==> exists j :: 0 <= j < |ps| && Contains(t, ps[j])
    decreases |ps|
  {
    if |ps| > 0 {
      AnyInIff(t, ps[1..]);
      assert forall j :: 0 < j < |ps| ==> ps[j] == ps[1..][j - 1];
    }
  }

  /** Both directions: the heuristic fires exactly when a trigger occurs in the
      lower-cased text. In particular the emptiness guard changes nothing, since no
      trigger is empty. */
  lemma AsksToSubmitIff(text: string)
    ensures AsksToSubmit(text) <==> MentionsTrigger(text)
  {
    var t := Lower(text);
    AnyInIff(t, Triggers);
    forall j | 0 <= j < |Triggers|
      ensures Contains(t, Triggers[j]) <==> exists i :: OccursAt(t, Triggers[j], i)
    {
      ContainsIff(t, Triggers[j]);
    }
    if |text| == 0 {
      forall j, i | 0 <= j < |Triggers| ensures !OccursAt(t, Triggers[j], i) {
        assert |Triggers[j]| > 0;
      }
    }
  }

  /** Empty text never asks for confirmation. */
  lemma EmptyNeverAsks()
    ensures !AsksToSubmit("")
  {
  }

  /** Absent `output_text` is read as the empty string (`getattr(...) or ""`), so it
      never asks either. */
  lemma AbsentNeverAsks(text: Option<string>)
    requires text.None? || text == Some("")
    ensures !AsksToSubmit(text.GetOr(""))
  {
  }

  /** Case-insensitivity: texts that agree once lower-cased get the same verdict. */
  lemma CaseInsensitive(a: string, b: string)
    requires Lower(a) == Lower(b)
    ensures AsksToSubmit(a) == AsksToSubmit(b)
  {
  }

  /** Shouting the question does not hide it: the upper-cased text gets the same verdict. */
  lemma UpperCaseSameVerdict(text: string)
    ensures AsksToSubmit(Upper(text)) == AsksToSubmit(text)
  {
    LowerOfUpper(text);
  }

  /** One occurrence of one trigger, at any offset of the lower-cased text, is enough. */
  lemma AsksWhenTriggerAt(text: string, j: nat, i: nat)
    requires j < |Triggers| && OccursAt(Lower(text), Triggers[j], i)
    ensures AsksToSubmit(text)
  {
    AsksToSubmitIff(text);
  }

  /** "Should I SUBMIT?" contains "should i submit" once lower-cased. */
  lemma ShouldISubmitAsks(text: string)
    requires text == "Should I SUBMIT?"
    ensures AsksToSubmit(text)
  {
    forall k | 0 <= k < |Triggers[1]| ensures LowerChar(text[k]) == Triggers[1][k] {
    }
    LowerOccursAt(text, Triggers[1], 0);
    AsksWhenTriggerAt(text, 1, 0);
  }

  /** A plain report of success is not a confirmation request. */
  lemma FormSubmittedDoesNotAsk(text: string)
    requires text == "Form submitted."
    ensures !AsksToSubmit(text)
  {
    var t := Lower(text);
    assert |t| == 15 && t[0] == 'f';
    forall j, i | 0 <= j < |Triggers| ensures !OccursAt(t, Triggers[j], i) {
    }
    AsksToSubmitIff(text);
  }

  /** The match is literal, not semantic: a text that declines to submit still fires the
      heuristic when it contains a trigger, and the loop would answer it with the
      confirmation. */
  lemma NotReadyStillAsks(text: string)
    requires text == "I am not ready to submit yet."
    ensures AsksToSubmit(text)
  {
    forall k | 0 <= k < |Triggers[4]| ensures LowerChar(text[9 + k]) == Triggers[4][k] {
    }
    LowerOccursAt(text, Triggers[4], 9);
    AsksWhenTriggerAt(text, 4, 9);
  }

  /** The short-circuiting scan `any(...)`: the index of the first trigger that occurs,
      or None when none does. */
  method FirstTrigger(text: string) returns (hit: Option<nat>)
    ensures hit.None? <==> !AsksToSubmit(text)
    ensures hit.Some? ==> hit.value < |Triggers| && Contains(Lower(text), Triggers[hit.value])
    ensures hit.Some? ==> forall j :: 0 <= j < hit.value ==> !Contains(Lower(text), Triggers[j])
  {
    if |text| == 0 {
      return None;
    }
    var t := Lower(text);
    AnyInIff(t, Triggers);
    var k := 0;
    while k < |Triggers|
      invariant 0 <= k <= |Triggers|
      invariant forall j :: 0 <= j < k ==> !Contains(t, Triggers[j])
    {
      if Contains(t, Triggers[k]) {
        return Some(k);
      }
      k := k + 1;
    }
    return None;
  }
}
