/** The reply classifier: turns a language model's free-text reply to the
    depression question into a prediction code.

    The steps follow the source in order:
      1. drop an echoed prompt and strip whitespace;
      2. drop a leading `answer:` label (any case) or a leading run of
         non-word characters;
      3. report "no content" if nothing is left;
      4. delete every `Answer: ` and `Response: ` label (exact case) and trim
         non-word characters at both ends;
      5. take the first whitespace-separated word, lower-case it, trim its
         non-word ends and compare it with "yes" and "no".
    Step 5 indexes the first word of a list that can be empty; that case is
    the `RaisedIndexError` outcome. */
module Reply {
  import opened Chars
  import opened Text

  /** The prediction codes the classifier returns. */
  const NoContent: int := -2
  const Unparseable: int := -1
  const NotDepressed: int := 0
  const Depressed: int := 1

  predicate IsPrediction(v: int) {
    v == NoContent || v == Unparseable || v == NotDepressed || v == Depressed
  }

  /** A normal return with a prediction code, or the `IndexError` raised by
      taking the first word of a text that has none. */
  datatype Outcome = Returned(prediction: int) | RaisedIndexError

  /** The labels deleted anywhere in the text, matched case-sensitively. */
  const AnswerLabel: string := "Answer: "
  const ResponseLabel: string := "Response: "

  /** The leading label, matched case-insensitively (compared lower-cased). */
  const LeadingAnswer: string := "answer:"

  /** Step 1: if the reply begins with the prompt, drop it and strip the
      rest; otherwise keep the reply as it is (no strip). After an echo,
      the result is the part of the remainder between its leading and its
      trailing whitespace runs: only whitespace is removed on either side,
      and what is left is empty or begins and ends with a non-whitespace
      character. */
  function RemoveEcho(generated: string, prompt: string): (d: string)
    ensures !(prompt <= generated) ==> d == generated
    ensures prompt <= generated ==> StrippedOf(d, generated[|prompt|..])
  {
    if prompt <= generated then Strip(generated[|prompt|..]) else generated
  }

  /** `answer:` in any case starts at index `n` of `s`. */
  predicate AnswerLabelAt(s: string, n: nat) {
    n + |LeadingAnswer| <= |s| && LowerStr(s[n..n + |LeadingAnswer|]) == LeadingAnswer
  }

  /** The first alternative of step 2 once it has matched at `n`: drop the
      label and the whitespace run that follows it. */
  function DropAnswerLabel(s: string, n: nat): (r: string)
    requires n + |LeadingAnswer| <= |s|
    ensures |r| <= |s| - n - |LeadingAnswer| && r == s[|s| - |r|..]
    ensures forall i :: n + |LeadingAnswer| <= i < |s| - |r| ==> IsSpace(s[i])
    ensures r == [] || !IsSpace(r[0])
  {
    var m := n + |LeadingAnswer|;
    var rest := s[m..];
    var r := TrimStart(rest, Whitespace);
    assert forall i :: m <= i < |s| - |r| ==> s[i] == rest[i - m];
    r
  }

  /** An `answer:` label begins with a letter. */
  lemma AnswerLabelStartsWord(s: string, n: nat)
    ensures AnswerLabelAt(s, n) ==> IsWordChar(s[n]) && Lower(s[n]) == 'a'
  {
    if AnswerLabelAt(s, n) {
      assert LowerStr(s[n..n + |LeadingAnswer|])[0] == 'a';
    }
  }

  /** Step 2: `re.sub(r'^\s*answer:\s*|^\s*\W+', '', s, flags=re.IGNORECASE)`.
      The first alternative wins when the text, after its leading whitespace,
      starts with `answer:`; it then also eats the whitespace after the label.
      Otherwise the second alternative removes the longest leading run of
      non-word characters (whitespace included), if there is one. */
  function StripLeadingNoise(s: string): (r: string)
    ensures |r| <= |s| && r == s[|s| - |r|..]
    ensures AnswerLabelAt(s, LeadRun(s, Whitespace)) ==>
              && |r| <= |s| - LeadRun(s, Whitespace) - |LeadingAnswer|
              && (forall i :: LeadRun(s, Whitespace) + |LeadingAnswer| <= i < |s| - |r| ==> IsSpace(s[i]))
              && (r == [] || !IsSpace(r[0]))
    ensures !AnswerLabelAt(s, LeadRun(s, Whitespace)) ==>
              && (forall i :: 0 <= i < |s| - |r| ==> !IsWordChar(s[i]))
              && (r == [] || IsWordChar(r[0]))
  {
    var n := LeadRun(s, Whitespace);
    if AnswerLabelAt(s, n) then DropAnswerLabel(s, n) else DropNoise(s)
  }

  /** The second alternative of step 2: drop the leading run of non-word
      characters. */
  function DropNoise(s: string): (r: string)
    ensures |r| <= |s| && r == s[|s| - |r|..]
    ensures forall i :: 0 <= i < |s| - |r| ==> !IsWordChar(s[i])
    ensures r == [] || IsWordChar(r[0])
  {
    TrimStart(s, NonWord)
  }

  /** A label occurrence starts at index `i` of `s`. */
  predicate LabelAt(s: string, i: nat)
    requires i <= |s|
  {
    AnswerLabel <= s[i..] || ResponseLabel <= s[i..]
  }

  /** Step 4a: `re.sub(r'Answer: |Response: ', '', s)`. Scans left to right;
      at each position an `Answer: ` or `Response: ` occurrence is deleted
      and the scan resumes after it, otherwise one character is kept. */
  function RemoveLabels(s: string): (r: string)
    ensures |r| <= |s|
    decreases |s|
  {
    if |s| == 0 then []
    else if AnswerLabel <= s then RemoveLabels(s[|AnswerLabel|..])
    else if ResponseLabel <= s then RemoveLabels(s[|ResponseLabel|..])
    else [s[0]] + RemoveLabels(s[1..])
  }

  /** Step 5b: the code for a cleaned first word. */
  function Verdict(token: string): (p: int)
    ensures p == Depressed <==> token == "yes"
    ensures p == NotDepressed <==> token == "no"
    ensures p == Unparseable <==> token != "yes" && token != "no"
  {
    if token == "yes" then Depressed
    else if token == "no" then NotDepressed
    else Unparseable
  }

  /** Steps 4a and 4b: the labels deleted, then the non-word runs trimmed
      from both ends. What is left is empty or begins and ends with a word
      character; it is empty exactly when the label deletion left no word
      character. */
  function Cleaned(t: string): (c: string)
    ensures c == [] <==> AllIn(RemoveLabels(t), NonWord)
    ensures c != [] ==> IsWordChar(c[0]) && IsWordChar(c[|c| - 1])
    ensures t == [] ==> c == []
  {
    Trim(RemoveLabels(t), NonWord)
  }

  /** Steps 3 to 5, applied to the text left by step 2. The text raises
      exactly when it is non-empty but nothing word-like survives the label
      deletion. */
  function ClassifyStripped(t: string): (o: Outcome)
    ensures o == Returned(NoContent) <==> t == []
    ensures o == RaisedIndexError <==> t != [] && AllIn(RemoveLabels(t), NonWord)
    ensures o.Returned? ==> IsPrediction(o.prediction)
  {
    if t == [] then Returned(NoContent)
    else
      var cleaned := Cleaned(t);
      var words := SplitWords(cleaned);
      assert cleaned != [] ==> !IsSpace(cleaned[0]) by {
        if cleaned != [] {
          SpaceIsNotWord(cleaned[0]);
        }
      }
      if |words| == 0 then RaisedIndexError
      else Returned(Verdict(Trim(LowerStr(words[0]), NonWord)))
  }

  /** Steps 2 to 5: a reply from which the echo has already been removed.
      It has no content exactly when step 2 leaves nothing, which is the
      case for every reply without a word character. */
  function ClassifyReply(d: string): (o: Outcome)
    ensures o.Returned? ==> IsPrediction(o.prediction)
    ensures o == Returned(NoContent) <==> StripLeadingNoise(d) == []
    ensures AllIn(d, NonWord) ==> o == Returned(NoContent)
  {
    NoiseStripsAway(d);
    ClassifyStripped(StripLeadingNoise(d))
  }

  /** Removing the echo cannot bring in a word character. */
  lemma RemoveEchoKeepsNoise(generated: string, prompt: string)
    ensures AllIn(generated, NonWord) ==> AllIn(RemoveEcho(generated, prompt), NonWord)
  {
    if AllIn(generated, NonWord) && prompt <= generated {
      var rest := generated[|prompt|..];
      assert forall i :: 0 <= i < |rest| ==> rest[i] == generated[|prompt| + i];
      TrimKeepsClass(rest, Whitespace, NonWord);
    }
  }

  /** Step 2 removes the whole of a reply without a word character. */
  lemma NoiseStripsAway(d: string)
    ensures AllIn(d, NonWord) ==> StripLeadingNoise(d) == []
  {
    if AllIn(d, NonWord) {
      var n := LeadRun(d, Whitespace);
      AnswerLabelStartsWord(d, n);
      assert !AnswerLabelAt(d, n);
      assert StripLeadingNoise(d) == TrimStart(d, NonWord);
    }
  }

  /** `check_depression(generated, prompt)`: every normal return is one of
      the four codes, and an empty reply or one with no word character at
      all is "no content". */
  function CheckDepression(generated: string, prompt: string): (o: Outcome)
    ensures o.Returned? ==> IsPrediction(o.prediction)
    ensures AllIn(generated, NonWord) ==> o == Returned(NoContent)
    ensures generated == [] ==> o == Returned(NoContent)
  {
    var d := RemoveEcho(generated, prompt);
    RemoveEchoKeepsNoise(generated, prompt);
    ClassifyReply(d)
  }
}
