/** The classifier on the concrete replies its unit tests use, and on the
    label and error cases. Each example names its strings through
    parameters fixed by `requires`, so that the proof goes through the
    general lemmas instead of evaluating the classifier symbol by symbol. */
module ReplyExamples {
  import opened Chars
  import opened Text
  import opened Reply
  import opened ReplyFacts

  lemma YesReply(g: string, prompt: string)
    requires g == "Yes, there are signs of depression." && prompt == "Input text"
    ensures CheckDepression(g, prompt) == Returned(Depressed)
  {
    YesReplyUnlessEcho(g, prompt);
  }

  /** The same reply is read as "depressed" after any prompt it cannot
      echo. */
  lemma YesReplyUnlessEcho(g: string, prompt: string)
    requires g == "Yes, there are signs of depression."
    requires prompt != [] && prompt[0] != 'Y'
    ensures CheckDepression(g, prompt) == Returned(Depressed)
  {
    YesPieces(g);
    NotEchoedFirstWordDecides(prompt, g[..3], g[3..4], g[4..]);
  }

  lemma YesPieces(g: string)
    requires g == "Yes, there are signs of depression."
    ensures |g| > 4 && g[0] == 'Y' && g == g[..3] + g[3..4] + g[4..]
    ensures IsWord(g[..3]) && LowerStr(g[..3]) == "yes"
    ensures g[3..4] == [','] && IsSpace(g[4])
  {
    var w := g[..3];
    assert w == "Yes";
    assert IsWord(w);
    assert LowerStr(w) == "yes";
    assert g[3..4] == [g[3]] && g[3] == ',';
    assert g == w + g[3..4] + g[4..];
  }

  lemma NoReply(g: string, prompt: string)
    requires g == "No signs of depression." && prompt == "Input text"
    ensures CheckDepression(g, prompt) == Returned(NotDepressed)
  {
    var w, punct, tail := g[..2], [], g[2..];
    assert g == w + punct + tail;
    assert w == "No";
    assert LowerStr(w) == "no";
    NotEchoedFirstWordDecides(prompt, w, punct, tail);
  }

  lemma UncertainReply(g: string, prompt: string)
    requires g == "Uncertain response" && prompt == "Input text"
    ensures CheckDepression(g, prompt) == Returned(Unparseable)
  {
    var w, punct, tail := g[..9], [], g[9..];
    assert g == w + punct + tail;
    assert w == "Uncertain";
    assert LowerStr(w)[0] == 'u';
    NotEchoedFirstWordDecides(prompt, w, punct, tail);
  }

  lemma EmptyReply(g: string, prompt: string)
    requires g == "" && prompt == "Input text"
    ensures CheckDepression(g, prompt) == Returned(NoContent)
  {
  }

  /** With an empty prompt, "Answer: yes" loses its leading label and
      reads as yes. */
  lemma AnswerLabelYes(g: string, prompt: string)
    requires g == "Answer: yes" && prompt == ""
    ensures CheckDepression(g, prompt) == Returned(Depressed)
  {
    assert prompt + g == g;
    EchoRemoved(prompt, g);
    AnswerYesStripped(g);
    AnswerYesClassified(g);
  }

  lemma AnswerYesStripped(g: string)
    requires g == "Answer: yes"
    ensures Strip(g) == g
  {
    assert !IsSpace(g[0]) && !IsSpace(g[|g| - 1]);
    TrimDropsTail(g, [], Whitespace);
    assert g + [] == g;
  }

  lemma AnswerYesClassified(g: string)
    requires g == "Answer: yes"
    ensures ClassifyReply(g) == Returned(Depressed)
  {
    var tag, ws2, w := g[..7], g[7..8], g[8..];
    assert g == [] + tag + ws2 + w + [] + [];
    assert tag == "Answer:" && ws2 == " " && w == "yes";
    assert LowerStr(tag) == LeadingAnswer;
    assert LowerStr(w) == "yes";
    AnswerLabelThenWordDecides([], tag, ws2, w, [], []);
  }

  /** A bare `Response: ` reply that does not echo the prompt has a word
      character, so it is not "no content", but the label deletion leaves no
      word to take: the classifier raises. */
  lemma ResponseLabelAloneRaises(g: string, prompt: string)
    requires g == "Response: " && prompt == "Input text"
    ensures CheckDepression(g, prompt) == RaisedIndexError
  {
    assert g == ResponseLabel + [];
    assert prompt[0] != (ResponseLabel + [])[0];
    ResponseLabelThenNoiseRaises(prompt, []);
  }
}
