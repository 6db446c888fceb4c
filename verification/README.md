# Depression-reply classifier: a Dafny model

The backend sends a social-media post and an image description to a
language model. The prompt asks whether the post shows signs of depression
and wants a `yes` or `no` answer followed by an explanation. The backend
then collects the streamed reply and turns it into a prediction code with
`check_depression`:

| code | meaning |
|---|---|
| 1 | the cleaned text opens with the word `yes` (any letter case) |
| 0 | the cleaned text opens with the word `no` |
| -1 | the cleaned text is non-empty and opens with neither `yes` nor `no` |
| -2 | nothing is left once the echo and the leading noise are removed |

The cleaned text is what is left after the `Answer: ` and `Response: `
labels are deleted and the non-word characters at both ends are trimmed.
"Opens with the word" means: the word, then only non-space punctuation up
to whitespace or the end of the text.

The project models three parts:
- the classifier, step by step, as the code does it;
- the prompt template;
- the concatenation of the streamed fragments.

Modules:

- `Chars` (chars.dfy) holds the character classes:
  - `\s`, which is `str.isspace`, shared by `str.strip()` and `str.split()`;
  - `\w` on ASCII;
  - ASCII `str.lower()`.
- `Text` (text.dfy) holds the string operations:
  - leading and trailing runs of a class;
  - trimming them (`str.strip()` and `re.sub(r'^[\s\W]+|[\s\W]+$', '', s)`);
  - `str.split()` with no argument, with its round trip against `' '.join`.
- `Reply` (reply.dfy) is `check_depression` itself. Its result is an
  `Outcome`: either `Returned(code)`, or `RaisedIndexError` for the
  `IndexError` raised when `split()` finds no word.
- `ReplyFacts` (reply_facts.dfy) states what the classifier computes, in
  terms independent of its steps:
  - which word decides the code;
  - when the result is -2;
  - that the leading-label strip is not idempotent;
  - which replies raise.
- `Decision` (decision.dfy) states both directions of the verdict for
  every input: the code is 1, 0 or -1 exactly as the cleaned text opens
  with `yes`, with `no`, or with neither.
- `ReplyExamples` (reply_examples.dfy) covers the replies of the unit test,
  the `Answer:` label and the raising `Response: ` reply.
- `Prompt` (prompt.dfy) is the two-slot prompt template, with its read-back
  property.
- `Stream` (stream.dfy) is the loop that appends the streamed fragments.
- `Pipeline` (pipeline.dfy) is `depr_fn_new` with the model's output given
  as a parameter.

## Two behaviours of the code

- **The classifier can raise.** `check_depression` raises `IndexError` when
  the text left after step 2 is non-empty but has no word character once
  the `Answer: ` and `Response: ` labels are deleted.
  - Example: the reply `Response: ` with a prompt it does not start with.
  - Example: the reply `answer: !!!` with the prompt `x`. Step 2 drops the
    leading `answer: ` and leaves `!!!`.
  - `ResponseLabelThenNoiseRaises` and `ResponseLabelAloneRaises` exhibit
    the first case.
  - `ClassifyStripped` and `Decision.CheckDepressionDecides` state exactly
    when it happens.
- **The leading strip is not idempotent.** It removes one leading
  `answer:` label, so `answer: answer: yes` becomes `answer: yes` after one
  pass and `yes` after two (`StripLeadingNoiseNotIdempotent`).

## Model

| member | source | states |
|---|---|---|
| Reply.RemoveEcho | main.py:37-40 | A reply that starts with the prompt becomes the part of the remainder between its leading and its trailing whitespace runs: only whitespace is dropped on either side, and the result is empty or begins and ends with non-whitespace. Any other reply is kept unchanged |
| Reply.AnswerLabelAt | main.py:43 | The case-insensitive `answer:` alternative matches at an index exactly when the seven characters there lower-case to `answer:` |
| Reply.DropAnswerLabel | main.py:43 | Dropping a matched `answer:` label removes the label and only the whitespace that follows it, leaving a suffix that does not start with whitespace |
| Reply.StripLeadingNoise | main.py:43 | The leading substitution removes a prefix. With an `answer:` label after the leading whitespace, it removes that whitespace, the label and the whitespace after it. Otherwise it removes exactly the leading non-word run, so the rest starts with a word character or is empty |
| Reply.DropNoise | main.py:43 | The `^\s*\W+` alternative removes only non-word characters and stops at the first word character |
| Reply.AnswerLabelStartsWord | main.py:43 | An `answer:` match in any case starts with a word character (the letter `a` or `A`), so an all-noise text never matches it |
| Reply.LabelAt | main.py:53 | A label occurrence starts at an index exactly when `Answer: ` or `Response: `, with that exact case, begins there |
| Reply.RemoveLabels | main.py:53 | Label deletion never lengthens the text |
| Reply.Verdict | main.py:63-71 | The code is 1 exactly for `yes`, 0 exactly for `no`, and -1 for every other word |
| Reply.ClassifyStripped | main.py:47-71 | After step 2, the result is -2 exactly when the text is empty. The call raises exactly when the text is non-empty and label deletion leaves no word character. Otherwise the result is one of the four codes |
| Reply.RemoveEchoKeepsNoise | main.py:37-40 | Removing the echo cannot bring a word character into a reply that has none |
| Reply.NoiseStripsAway | main.py:43 | Step 2 removes the whole of a text without word characters |
| Reply.Cleaned | main.py:53-55 | The cleaned text is empty exactly when label deletion leaves no word character; otherwise it begins and ends with a word character |
| Reply.ClassifyReply | main.py:43-71 | Every normal return is one of the four codes. The result is -2 exactly when step 2 leaves nothing, and always for a text without word characters |
| Reply.CheckDepression | main.py:34-74 | Every normal return is one of -2, -1, 0, 1. An empty reply, or one without any word character, returns -2 |
| ReplyFacts.RemoveLabelsSkip | main.py:53 | A prefix where no label starts is kept verbatim by label deletion |
| ReplyFacts.RemoveLabelsDeletes | main.py:53 | The first `Answer: ` or `Response: ` occurrence that the left-to-right scan meets is deleted, and the scan resumes after it |
| ReplyFacts.LowerCaseLabelsStay | main.py:53 | Deletion is case-sensitive: lower-case `answer: ` and `response: ` are kept |
| ReplyFacts.RemoveLabelsKeepsNoise | main.py:53 | A text without word characters contains no label and is unchanged |
| ReplyFacts.NoLabelInsideWord | main.py:53 | A label can start inside a word only when the word ends with the label's word part and the label's `: ` follows |
| ReplyFacts.FirstWordDecides | main.py:53-71 | After step 2, a word, then non-space non-word characters, then a whitespace-started tail is classified by that word alone: 1 for `yes` in any case, 0 for `no`, -1 otherwise. Nothing in the tail matters. This holds unless the word ends in `Answer` or `Response` and its punctuation is exactly `:`, since label deletion would then remove part of it |
| ReplyFacts.StripLeadingNoiseSkipsNoise | main.py:43 | Non-word characters before a word that does not start an `answer:` label are removed, and the word is kept |
| ReplyFacts.ReplyFirstWordDecides | main.py:43-71 | Leading noise, then a word other than `answer`, then punctuation and a tail: the code is decided by that word alone. This holds unless the word ends in `Answer` or `Response` and its punctuation is exactly `:`, since label deletion would then remove part of it |
| ReplyFacts.EchoRemoved | main.py:37-38 | A reply that echoes the prompt is classified exactly like the stripped remainder, and like the remainder with an empty prompt |
| ReplyFacts.EchoedFirstWordDecides | main.py:37-71 | After an echoed prompt, the first word of the answer decides the code, provided the word is not `answer`. This holds unless the word ends in `Answer` or `Response` and its punctuation is exactly `:`, since label deletion would then remove part of it |
| ReplyFacts.StripKeepsWord | main.py:38 | Stripping a word with its punctuation and a whitespace-led tail keeps the word and the punctuation, followed by a tail that is empty or starts with whitespace |
| ReplyFacts.StrippedFirstWordDecides | main.py:38-71 | The stripped remainder after an echo is classified by its first word, provided the word is not `answer`. This holds unless the word ends in `Answer` or `Response` and its punctuation is exactly `:`, since label deletion would then remove part of it |
| ReplyFacts.NotEchoedFirstWordDecides | main.py:37-71 | A reply whose first character differs from the prompt's is not an echo, and its first word decides the code, provided the word is not `answer`. This holds unless the word ends in `Answer` or `Response` and its punctuation is exactly `:`, since label deletion would then remove part of it |
| ReplyFacts.NoContentExactly | main.py:43-50 | After echo removal, the result is -2 exactly when the text has no word character or is a bare `answer:` label (any case) surrounded only by whitespace |
| ReplyFacts.EmptyAfterLabel | main.py:43-47 | With a leading `answer:` label, step 2 leaves nothing exactly when only whitespace follows the label |
| ReplyFacts.EmptyWithoutLabel | main.py:43-47 | Without a leading label, step 2 leaves nothing exactly when the text has no word character |
| ReplyFacts.LeadingAnswerStripped | main.py:43 | An `answer:` label in any case, with whitespace before and after, is removed together with that whitespace |
| ReplyFacts.AnswerLabelThenWordDecides | main.py:43-71 | After a leading `answer:` label, the next word decides the code. This holds unless the word ends in `Answer` or `Response` and its punctuation is exactly `:`, since label deletion would then remove part of it |
| ReplyFacts.StripLeadingNoiseFixpoint | main.py:43 | Step 2 leaves a text unchanged exactly when the text is empty, or starts with a word character and not with an `answer:` label |
| ReplyFacts.StripLeadingNoiseNotIdempotent | main.py:43 | Step 2 applied twice to `answer: answer: yes` gives a different text than applied once |
| ReplyFacts.ResponseLabelThenNoiseRaises | main.py:53-57 | A `Response: ` label followed only by non-word characters, in a reply that does not start with the prompt, makes the classifier raise `IndexError` |
| Decision.FirstWordEnds | main.py:57 | The first word `split()` finds in a text that starts with a word character is its prefix up to the first whitespace |
| Decision.Tokenize | main.py:57-60 | That first word, lower-cased and trimmed, is its part up to the last word character, lower-cased; what follows is punctuation and then whitespace or the end |
| Decision.TokenIsWordIff | main.py:57-60 | The trimmed, lower-cased first word is a given word exactly when the text opens with a word that lower-cases to it |
| Decision.VerdictOfToken | main.py:53-71 | When the cleaned text is non-empty, the code is that of its trimmed, lower-cased first word |
| Decision.DecidedBy | main.py:53-71 | The code is 1 exactly when the cleaned text opens with `yes` in any case, and 0 exactly when it opens with `no` |
| Decision.ClassifyStrippedDecides | main.py:47-71 | For every text left by step 2: 1 exactly when the cleaned text opens with `yes`, 0 exactly when it opens with `no`, -1 exactly when it is non-empty and opens with neither |
| Decision.CheckDepressionDecides | main.py:34-74 | For every reply and prompt: -2 exactly when nothing is left after steps 1 and 2, a raise exactly when that text has no word character once labels are deleted, and otherwise 1, 0 or -1 exactly as its cleaned text opens with `yes`, `no` or neither |
| ReplyExamples.YesReply | test_main.py:6 | `Yes, there are signs of depression.` with prompt `Input text` gives 1 |
| ReplyExamples.YesReplyUnlessEcho | test_main.py:6 | The same reply gives 1 after any non-empty prompt that does not start with `Y` |
| ReplyExamples.NoReply | test_main.py:7 | `No signs of depression.` gives 0 |
| ReplyExamples.UncertainReply | test_main.py:8 | `Uncertain response` gives -1 |
| ReplyExamples.EmptyReply | test_main.py:9 | The empty reply gives -2 |
| ReplyExamples.AnswerLabelYes | main.py:43 | With an empty prompt, `Answer: yes` loses its label and gives 1 |
| ReplyExamples.ResponseLabelAloneRaises | main.py:53-57 | The reply `Response: ` with prompt `Input text` raises `IndexError` |
| Chars.IsSpace | main.py:38-57 | The whitespace test shared by `strip()`, `\s` and `split()` is Python's `str.isspace()`: TAB..CR, FS..US, SPACE, U+0085, U+00A0, U+1680, U+2000..U+200A, U+2028, U+2029, U+202F, U+205F and U+3000 |
| Chars.IsWordChar | main.py:43-60 | `\w` is an ASCII letter, an ASCII digit or `_`; `\W` is every other character |
| Chars.Lower | main.py:57 | Lower-casing maps `A`-`Z` onto `a`-`z` and keeps every other character. It preserves word-ness and whitespace-ness |
| Chars.LowerStr | main.py:57 | `lower()` keeps the length, leaves no upper-case ASCII letter, and keeps each character's word and whitespace class |
| Chars.LowerStrIdempotent | main.py:57 | Lower-casing a lower-cased string changes nothing |
| Text.LowerKeepsClass | main.py:57 | A string is all of a class exactly when its lower-cased form is |
| Chars.LowerStrAppend | main.py:57 | Lower-casing distributes over concatenation |
| Text.LeadRun | main.py:43 | The leading run of a class is maximal: every character before it is in the class, and the character after it is not |
| Text.TrimStart | main.py:43 | A `^[...]+` substitution removes exactly the leading run. The result is empty exactly when the whole text is in the class |
| Text.Trim | main.py:55 | Trimming both ends leaves the infix that starts after the leading run. It is empty exactly when the text is all in the class, and otherwise its ends are outside the class |
| Text.TrimEnd | main.py:55 | A `[...]+$` substitution removes exactly the trailing run: the result is a prefix, every dropped character is in the class, and the result is empty or ends outside the class |
| Text.Strip | main.py:38 | `strip()` leaves the infix between the leading and the trailing whitespace runs, empty or bounded by non-whitespace. It is empty exactly when the text is all whitespace |
| Text.TrimIdempotent | main.py:55 | Trimming a second time changes nothing |
| Text.TrimDropsTail | main.py:38 | A text that begins and ends outside the class, followed only by class characters, trims to itself |
| Text.TrimKeepsClass | main.py:38 | Trimming keeps only characters of the text |
| Text.SplitWords | main.py:57 | `split()` yields non-empty, whitespace-free words. It yields none exactly when the text is all whitespace |
| Text.FirstWord | main.py:57 | The first word of a text that does not start with whitespace is its longest whitespace-free prefix |
| Text.SplitReconstructs | main.py:57 | The words of `split()`, woven with whitespace gaps that are non-empty between two words, give back the text: every word is a maximal whitespace-free run and only whitespace is dropped |
| Text.SplitJoin | main.py:57 | `split()` recovers the words of `' '.join(words)` for whitespace-free words |
| Prompt.Format | main.py:91-103 | The post and the image description appear verbatim at their offsets, between the fixed template parts, and the length adds up |
| Prompt.FormatRoundTrip | main.py:91-103 | Both filled values are read back from the prompt |
| Prompt.FormatInjective | main.py:91-103 | Two prompts for posts of equal length are equal only when the posts and the descriptions are |
| Prompt.Compose | main.py:91-103 | The post and the image description are read back verbatim from the prompt, whose length is the template's plus both values |
| Prompt.ComposeStartsWithNewline | main.py:91 | Every prompt opens with a line break |
| Stream.FlattenAppend | main.py:113-115 | Collecting two runs of fragments gives the concatenation of their texts |
| Stream.FlattenLength | main.py:113-115 | The collected text is as long as all fragments together |
| Stream.FragmentAtOffset | main.py:113-115 | No fragment is dropped or reordered: each appears verbatim at its offset |
| Stream.CollectStream | main.py:113-115 | The loop builds exactly the in-order concatenation of the fragments |
| Pipeline.DeprFnNew | main.py:76-135 | Returns the collected reply and its classification against the filled prompt. An empty stream gives -2 |
| Pipeline.EchoedPromptIgnored | main.py:113-134 | A model that repeats the prompt before answering is judged on the answer alone |
| Pipeline.SingleFragmentYes | test_main.py:11-19 | A single streamed fragment `Yes, there are signs of depression.` for the test post is returned unchanged and classified 1 |

## Left out

- The model does not include the credentials, the login, or the dataset download (main.py:9-30). They have no bearing on the classifier.
- The call to the hosted language model (main.py:105-111) is replaced by a parameter: the list of fragments it streams.
- The `print` calls and the commented-out alternative prompts and chat-completion call (main.py:80-89, 117-132) are left out. They are output only or inactive.
- The HTTP routes and the application set-up (main.py:137-151) are left out, along with their tests (test_main.py:22-92). They are I/O around the core.
- `log_file.write` (main.py:59) is treated as a logging side effect with no influence on the result. `log_file` is not defined in main.py, so as written that line would fail with `NameError` unless the caller provides the name. The unit tests expect a normal return, and the model follows them.
- `max_words` (main.py:78) is assigned but never used, so no truncation is modelled.
- The final call (main.py:134) passes a third argument that the two-parameter `check_depression` does not accept. `Pipeline.DeprFnNew` models the call with the two parameters the definition has.
- Chars.IsWordChar: `\w` is modelled on ASCII letters, digits and `_`. Python also counts non-ASCII letters and digits as word characters, and the model treats them as non-word.
- Chars.Lower: only ASCII letters are lower-cased. Python's `str.lower()` also maps non-ASCII letters.
- Reply.AnswerLabelAt: the case-insensitive match compares ASCII lower case. Python's `IGNORECASE` would also accept `ſ` (U+017F) for `s`, and the model does not.
- Reply.RemoveLabels: the contract states only the length bound. What deletion does is stated by `ReplyFacts.RemoveLabelsSkip`, `ReplyFacts.RemoveLabelsDeletes` and `ReplyFacts.LowerCaseLabelsStay`.
- The code computes `processed_text_lower` (main.py:70) but never uses it, so the model omits it.
