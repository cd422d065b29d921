/** The one-shot chat entry point (simple_chat_api.py): one human message in,
    the agent's latest non-human reply out, with a medical disclaimer added
    unless the reply already mentions one. */
module SimpleChatApi {
  import opened Strings
  import opened Messages
  import Agent

  const NoMessageError: string := "Error: No message provided"
  const NoResponseError: string := "I'm sorry, I couldn't generate a response. Please try again."
  const ProcessingErrorPrefix: string := "Error processing message: "

  const DoctorPhrase: string := "not a doctor"
  const DisclaimerWord: string := "disclaimer"

  const DisclaimerLead: string := "\n\n\U{26A0}\U{FE0F} **Medical "
  const DisclaimerTail: string :=
    "**: This information is for educational purposes only and should not replace professional "
    + "medical advice. Please consult with your oncologist or healthcare provider for personalized "
    + "medical guidance."
  const MedicalDisclaimer: string := DisclaimerLead + "Disclaimer" + DisclaimerTail

  /** Neither "not a doctor" nor "disclaimer" occurs in the lowercased reply. */
  predicate Undisclaimed(response: string) {
    !Contains(Lower(response), DoctorPhrase) && !Contains(Lower(response), DisclaimerWord)
  }

  function WithMedicalDisclaimer(response: string): string {
    if Undisclaimed(response) then response + MedicalDisclaimer else response
  }

  /** The reply is always kept as a prefix; it is returned unchanged exactly
      when it already carries one of the two phrases. */
  lemma DisclaimerRule(response: string)
    ensures StartsWith(WithMedicalDisclaimer(response), response)
    ensures WithMedicalDisclaimer(response) == response <==> !Undisclaimed(response)
  {
    var r := WithMedicalDisclaimer(response);
    assert r[..|response|] == response;
    assert |MedicalDisclaimer| > 0;
  }

  /** A word placed in the text occurs, lowercased, in the lowercased text. */
  lemma LowerKeepsWord(x: string, w: string, y: string)
    ensures Contains(Lower(x + w + y), Lower(w))
  {
    LowerAppend(x, w);
    LowerAppend(x + w, y);
    ContainsMiddle(Lower(x), Lower(w), Lower(y));
  }

  lemma LowerDisclaimer()
    ensures Lower("Disclaimer") == DisclaimerWord
  {}

  lemma WordBetween(response: string, lead: string, tail: string)
    ensures Contains(Lower(response + (lead + "Disclaimer" + tail)), DisclaimerWord)
  {
    assert response + (lead + "Disclaimer" + tail) == (response + lead) + "Disclaimer" + tail;
    LowerKeepsWord(response + lead, "Disclaimer", tail);
    LowerDisclaimer();
  }

  /** Whatever precedes it, the appended text makes "disclaimer" occur. */
  lemma DisclaimerMentionsItself(response: string)
    ensures Contains(Lower(response + MedicalDisclaimer), DisclaimerWord)
  {
    WordBetween(response, DisclaimerLead, DisclaimerTail);
  }

  /** Hence applying the rule a second time changes nothing. */
  lemma DisclaimerIdempotent(response: string)
    ensures WithMedicalDisclaimer(WithMedicalDisclaimer(response)) == WithMedicalDisclaimer(response)
  {
    if Undisclaimed(response) {
      DisclaimerMentionsItself(response);
    }
  }

  /** main: invoke the agent on `[HumanMessage(argv[1])]` and print its
      latest non-human reply with the disclaimer rule applied; an empty or
      missing reply and a raised exception exit 1. */
  method Run(argv: seq<string>, agent: seq<Msg> -> Call<seq<Msg>>) returns (outcome: Outcome)
    ensures |argv| < 2 ==> outcome == Outcome(1, "", NoMessageError)
    ensures |argv| >= 2 ==>
      var result := agent([Human(argv[1])]);
      (result.Raised? ==> outcome == Outcome(1, "", ProcessingErrorPrefix + result.error))
      && (result.Returned? ==>
            var reply := LastReply(result.value);
            (reply.None? || reply.value == [] ==> outcome == Outcome(1, "", NoResponseError))
            && (reply.Some? && reply.value != [] ==>
                  outcome == Outcome(0, WithMedicalDisclaimer(reply.value) + "\n", "")))
  {
    if |argv| < 2 {
      return Outcome(1, "", NoMessageError);
    }
    var userMessage := argv[1];
    var initialState := [Human(userMessage)];
    var result := agent(initialState);
    if result.Raised? {
      return Outcome(1, "", ProcessingErrorPrefix + result.error);
    }
    var aiResponse := PickReply(result.value);
    if aiResponse.None? || aiResponse.value == [] {
      return Outcome(1, "", NoResponseError);
    }
    var response := aiResponse.value;
    if !Contains(Lower(response), DoctorPhrase) && !Contains(Lower(response), DisclaimerWord) {
      response := response + MedicalDisclaimer;
    }
    outcome := Outcome(0, response + "\n", "");
  }

  /** With the router as the agent, the printed reply is the final ai
      message `process_node` appends, here to the one-message state. */
  lemma RouterAnswers<A>(state: seq<Msg>, c: Agent.Collaborators<A>)
    ensures var reply := Agent.Reply(state, c);
      LastReply(state + reply) == Some(reply[|reply| - 1].content)
  {
    var reply := Agent.Reply(state, c);
    ReplyOfFinalAI(state, reply);
  }
}
