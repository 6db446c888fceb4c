/** One analysis request end to end: fill the prompt, collect the model's
    streamed reply (the stream is a parameter: the model call itself is
    outside the model), and classify the reply against the prompt. */
module Pipeline {
  import opened Reply
  import opened ReplyFacts
  import opened ReplyExamples
  import opened Prompt
  import opened Stream

  /** `depr_fn_new(modelname, post_text, image2text)` with the model's output
      given as its list of fragments. Returns the reply text and the
      classifier's outcome. */
  method DeprFnNew(post: string, image: string, output: seq<string>)
    returns (generated: string, verdict: Outcome)
    ensures generated == Flatten(output)
    ensures verdict == CheckDepression(Flatten(output), Compose(post, image))
    ensures verdict.Returned? ==> IsPrediction(verdict.prediction)
    ensures output == [] ==> verdict == Returned(NoContent)
  {
    var prompt := Compose(post, image);
    generated := CollectStream(output);
    verdict := CheckDepression(generated, prompt);
  }

  /** A model that echoes the prompt before answering is judged on the
      answer alone. */
  lemma EchoedPromptIgnored(post: string, image: string, answer: seq<string>)
    ensures CheckDepression(Flatten([Compose(post, image)] + answer), Compose(post, image))
            == CheckDepression(Flatten(answer), [])
  {
    var prompt := Compose(post, image);
    FlattenAppend([prompt], answer);
    FlattenSingle(prompt);
    EchoRemoved(prompt, Flatten(answer));
  }

  /** The streamed reply of the end-to-end unit test is returned unchanged
      and read as "depressed". */
  lemma SingleFragmentYes(post: string, image: string, reply: string)
    requires post == "Test post" && image == "Test image description"
    requires reply == "Yes, there are signs of depression."
    ensures Flatten([reply]) == reply
    ensures CheckDepression(Flatten([reply]), Compose(post, image)) == Returned(Depressed)
  {
    FlattenSingle(reply);
    ComposeStartsWithNewline(post, image);
    YesReplyUnlessEcho(reply, Compose(post, image));
  }
}
