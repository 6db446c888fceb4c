/** What the reply classifier guarantees: which replies count as "no
    content", which raise, how an echoed prompt and an `answer:` label are
    handled, and that the first word alone decides yes, no or unparseable. */
module ReplyFacts {
  import opened Chars
  import opened Text
  import opened Reply

  // ---------------------------------------------------------------------
  // Label deletion (step 4a)

  /** No label starts at a character other than `A` or `R`. */
  lemma NoLabelWithoutCapital(s: string, i: nat)
    requires i < |s| && s[i] != 'A' && s[i] != 'R'
    ensures !LabelAt(s, i)
  {
    assert AnswerLabel[0] == 'A' && ResponseLabel[0] == 'R';
    assert s[i..][0] == s[i];
  }

  /** Characters before the first possible label start pass through. */
  lemma {:induction false} RemoveLabelsSkip(a: string, b: string)
    requires forall i :: 0 <= i < |a| ==> !LabelAt(a + b, i)
    ensures RemoveLabels(a + b) == a + RemoveLabels(b)
    decreases |a|
  {
    if |a| == 0 {
      assert a + b == b;
    } else {
      var s := a + b;
      var a' := a[1..];
      assert !LabelAt(s, 0);
      RemoveLabelsKeeps(s);
      assert s[1..] == a' + b;
      forall i | 0 <= i < |a'|
        ensures !LabelAt(a' + b, i)
      {
        LabelAtShift(a, b, i);
      }
      RemoveLabelsSkip(a', b);
      assert a == [a[0]] + a';
    }
  }

  /** Without a label at the front, the first character is kept. */
  lemma RemoveLabelsKeeps(s: string)
    requires s != [] && !LabelAt(s, 0)
    ensures RemoveLabels(s) == [s[0]] + RemoveLabels(s[1..])
  {
    assert s[0..] == s;
  }

  /** Dropping the first character of `a` shifts label positions by one. */
  lemma LabelAtShift(a: string, b: string, i: nat)
    requires a != [] && i < |a| - 1
    ensures LabelAt(a[1..] + b, i) == LabelAt(a + b, i + 1)
  {
    assert (a[1..] + b)[i..] == (a + b)[i + 1..];
  }

  /** An `Answer: ` or `Response: ` occurrence is deleted and the scan goes
      on after it: every occurrence the left-to-right scan meets is removed. */
  lemma RemoveLabelsDeletes(a: string, tag: string, b: string)
    requires tag == AnswerLabel || tag == ResponseLabel
    requires forall i :: 0 <= i < |a| ==> !LabelAt(a + tag + b, i)
    ensures RemoveLabels(a + tag + b) == a + RemoveLabels(b)
  {
    assert a + tag + b == a + (tag + b);
    RemoveLabelsSkip(a, tag + b);
    var s := tag + b;
    assert s[..|tag|] == tag && s[|tag|..] == b;
    if tag == ResponseLabel {
      assert s[0] == 'R';
      assert !(AnswerLabel <= s);
    }
  }

  /** Deletion is case-sensitive: lower-case labels stay in the text. */
  lemma LowerCaseLabelsStay(b: string)
    ensures RemoveLabels("answer: " + b) == "answer: " + RemoveLabels(b)
    ensures RemoveLabels("response: " + b) == "response: " + RemoveLabels(b)
  {
    var a1 := "answer: ";
    forall i | 0 <= i < |a1|
      ensures !LabelAt(a1 + b, i)
    {
      assert (a1 + b)[i] == a1[i];
      NoLabelWithoutCapital(a1 + b, i);
    }
    RemoveLabelsSkip(a1, b);
    var a2 := "response: ";
    forall i | 0 <= i < |a2|
      ensures !LabelAt(a2 + b, i)
    {
      assert (a2 + b)[i] == a2[i];
      NoLabelWithoutCapital(a2 + b, i);
    }
    RemoveLabelsSkip(a2, b);
  }

  /** A string without word characters has no labels to delete. */
  lemma RemoveLabelsKeepsNoise(x: string)
    requires AllIn(x, NonWord)
    ensures RemoveLabels(x) == x
  {
    forall i | 0 <= i < |x|
      ensures !LabelAt(x + [], i)
    {
      assert (x + [])[i] == x[i];
      NoLabelWithoutCapital(x + [], i);
    }
    RemoveLabelsSkip(x, []);
    assert x + [] == x;
  }

  /** Deleting labels from a text that starts with whitespace keeps that
      whitespace character in front. */
  lemma RemoveLabelsKeepsLeadingSpace(tail: string)
    requires tail == [] || IsSpace(tail[0])
    ensures RemoveLabels(tail) == [] || IsSpace(RemoveLabels(tail)[0])
  {
    if tail != [] {
      SpaceIsNotWord(tail[0]);
      NoLabelWithoutCapital(tail, 0);
      assert tail[0..] == tail;
    }
  }

  /** The word part of a label (`Answer` or `Response`) ends `w`. */
  predicate EndsWithLabelWord(w: string, tag: string)
    requires |tag| >= 2
  {
    |w| >= |tag| - 2 && w[|w| - (|tag| - 2)..] == tag[..|tag| - 2]
  }

  /** `punct` is the colon that, with a following space, would complete a
      label whose word part ends `w`. */
  predicate LabelCouldEndWord(w: string, punct: string) {
    punct == ":" && (EndsWithLabelWord(w, AnswerLabel) || EndsWithLabelWord(w, ResponseLabel))
  }

  /** A label cannot start inside a word unless the word ends with the
      label's word part and the label's `: ` follows it. */
  lemma NoLabelInsideWord(w: string, punct: string, tail: string, tag: string, i: nat)
    requires IsWord(w) && AllIn(punct, NonWord) && AllIn(punct, NonSpace)
    requires tail == [] || IsSpace(tail[0])
    requires |tag| >= 3 && tag[|tag| - 2] == ':' && tag[|tag| - 1] == ' '
    requires forall j :: 0 <= j < |tag| - 2 ==> IsWordChar(tag[j])
    requires punct != ":" || !EndsWithLabelWord(w, tag)
    requires i < |w|
    ensures !(tag <= (w + punct + tail)[i..])
  {
    var x := w + punct + tail;
    var m := |tag| - 2;
    var j: nat;
    if i + m < |w| {
      j := i + m;
    } else if i + m > |w| {
      j := |w|;
      if |w| < |x| {
        SpaceIsNotWord(x[|w|]);
      }
    } else if w[i..] != tag[..m] {
      assert |w[i..]| == m;
      var k :| 0 <= k < m && w[i..][k] != tag[..m][k];
      j := i + k;
    } else {
      assert w[|w| - m..] == w[i..];
      if punct == [] || punct[0] != ':' {
        j := |w|;
      } else {
        j := |w| + 1;
      }
    }
    assert i <= j < i + |tag|;
    assert j >= |x| || x[j] != tag[j - i];
  }

  /** No label starts within a word or in the punctuation right after it. */
  lemma NoLabelBeforeTail(w: string, punct: string, tail: string)
    requires IsWord(w) && AllIn(punct, NonWord) && AllIn(punct, NonSpace)
    requires tail == [] || IsSpace(tail[0])
    requires !LabelCouldEndWord(w, punct)
    ensures forall i :: 0 <= i < |w + punct| ==> !LabelAt(w + punct + tail, i)
  {
    var x := w + punct + tail;
    assert x == (w + punct) + tail;
    forall i | 0 <= i < |w + punct|
      ensures !LabelAt(x, i)
    {
      if i < |w| {
        assert forall j :: 0 <= j < |AnswerLabel| - 2 ==> IsWordChar(AnswerLabel[j]);
        assert forall j :: 0 <= j < |ResponseLabel| - 2 ==> IsWordChar(ResponseLabel[j]);
        NoLabelInsideWord(w, punct, tail, AnswerLabel, i);
        NoLabelInsideWord(w, punct, tail, ResponseLabel, i);
      } else {
        assert x[i] == punct[i - |w|];
        NoLabelWithoutCapital(x, i);
      }
    }
  }

  // ---------------------------------------------------------------------
  // The first word decides (steps 4 and 5)

  /** Step 4a on a word, its punctuation and a whitespace-led tail: labels
      are deleted from the tail only. */
  lemma LabelsOnlyInTail(w: string, punct: string, tail: string)
    requires IsWord(w) && AllIn(punct, NonWord) && AllIn(punct, NonSpace)
    requires tail == [] || IsSpace(tail[0])
    requires !LabelCouldEndWord(w, punct)
    ensures RemoveLabels(w + punct + tail) == w + punct + RemoveLabels(tail)
  {
    NoLabelBeforeTail(w, punct, tail);
    RemoveLabelsSkip(w + punct, tail);
  }

  /** Step 4b on a word, its punctuation and a whitespace-led rest: the word
      survives intact at the front, followed by (a prefix of) the
      punctuation and then, if anything, whitespace. */
  lemma TrimKeepsWord(w: string, punct: string, rest: string)
    requires IsWord(w)
    requires rest == [] || IsSpace(rest[0])
    ensures var cleaned := Trim(w + punct + rest, NonWord);
      && |w| <= |cleaned|
      && cleaned[..|w|] == w
      && (forall i :: |w| <= i < |cleaned| && i < |w| + |punct| ==> cleaned[i] == punct[i - |w|])
      && (|cleaned| > |w| + |punct| ==> IsSpace(cleaned[|w| + |punct|]))
  {
    assert w + punct + rest == w + (punct + rest);
    TrimAroundCore(w, punct + rest, NonWord);
  }

  /** Steps 4a and 4b together. */
  lemma CleanedKeepsWord(w: string, punct: string, tail: string)
    requires IsWord(w) && AllIn(punct, NonWord) && AllIn(punct, NonSpace)
    requires tail == [] || IsSpace(tail[0])
    requires !LabelCouldEndWord(w, punct)
    ensures var cleaned := Trim(RemoveLabels(w + punct + tail), NonWord);
      && |w| <= |cleaned|
      && cleaned[..|w|] == w
      && (forall i :: |w| <= i < |cleaned| && i < |w| + |punct| ==> cleaned[i] == punct[i - |w|])
      && (|cleaned| > |w| + |punct| ==> IsSpace(cleaned[|w| + |punct|]))
  {
    LabelsOnlyInTail(w, punct, tail);
    RemoveLabelsKeepsLeadingSpace(tail);
    TrimKeepsWord(w, punct, RemoveLabels(tail));
  }

  /** Lower-casing a word with non-word characters glued to it and trimming
      the non-word ends leaves the lower-cased word. */
  lemma LowerTrimWord(w: string, v: string)
    requires IsWord(w) && AllIn(v, NonWord)
    ensures Trim(LowerStr(w + v), NonWord) == LowerStr(w)
  {
    LowerStrAppend(w, v);
    assert AllIn(LowerStr(v), NonWord);
    TrimDropsTail(LowerStr(w), LowerStr(v), NonWord);
  }

  /** The first word of a text that starts with a word `w` ends no later
      than the first whitespace after `w`'s punctuation. */
  lemma FirstTokenBounds(cleaned: string, w: string, punct: string)
    requires IsWord(w)
    requires |w| <= |cleaned| && cleaned[..|w|] == w
    requires |cleaned| > |w| + |punct| ==> IsSpace(cleaned[|w| + |punct|])
    ensures SplitWords(cleaned) != []
    ensures |w| <= |SplitWords(cleaned)[0]| <= |w| + |punct|
    ensures SplitWords(cleaned)[0] == cleaned[..|SplitWords(cleaned)[0]|]
  {
    assert cleaned[0] == w[0];
    SpaceIsNotWord(cleaned[0]);
    FirstWord(cleaned);
    forall i | 0 <= i < |w|
      ensures !IsSpace(cleaned[i])
    {
      assert cleaned[i] == w[i];
      SpaceIsNotWord(w[i]);
    }
  }

  /** A prefix of such a cleaned text that reaches past `w` but not past its
      punctuation is `w` with non-word characters glued on. */
  lemma TokenShape(cleaned: string, token: string, w: string, punct: string)
    requires IsWord(w) && AllIn(punct, NonWord)
    requires |w| <= |token| <= |w| + |punct| && |token| <= |cleaned|
    requires token == cleaned[..|token|] && cleaned[..|w|] == w
    requires forall i :: |w| <= i < |cleaned| && i < |w| + |punct| ==> cleaned[i] == punct[i - |w|]
    ensures Trim(LowerStr(token), NonWord) == LowerStr(w)
  {
    var v := token[|w|..];
    assert token == w + v;
    forall i | 0 <= i < |v|
      ensures !IsWordChar(v[i])
    {
      assert v[i] == cleaned[|w| + i];
    }
    LowerTrimWord(w, v);
  }

  /** The first word of such a cleaned text, lower-cased and trimmed, is the
      lower-cased word. */
  lemma FirstTokenIsWord(cleaned: string, w: string, punct: string)
    requires IsWord(w) && AllIn(punct, NonWord)
    requires |w| <= |cleaned| && cleaned[..|w|] == w
    requires forall i :: |w| <= i < |cleaned| && i < |w| + |punct| ==> cleaned[i] == punct[i - |w|]
    requires |cleaned| > |w| + |punct| ==> IsSpace(cleaned[|w| + |punct|])
    ensures SplitWords(cleaned) != []
    ensures Trim(LowerStr(SplitWords(cleaned)[0]), NonWord) == LowerStr(w)
  {
    FirstTokenBounds(cleaned, w, punct);
    TokenShape(cleaned, SplitWords(cleaned)[0], w, punct);
  }

  /** After step 2, a text made of a word, the punctuation glued to it and
      anything that starts with whitespace is classified by that word alone:
      1 when it is "yes" in any letter case, 0 when it is "no", -1 for any
      other word. Nothing after the first whitespace matters. */
  lemma FirstWordDecides(w: string, punct: string, tail: string)
    requires IsWord(w) && AllIn(punct, NonWord) && AllIn(punct, NonSpace)
    requires tail == [] || IsSpace(tail[0])
    requires !LabelCouldEndWord(w, punct)
    ensures ClassifyStripped(w + punct + tail) == Returned(Verdict(LowerStr(w)))
  {
    CleanedKeepsWord(w, punct, tail);
    FirstTokenIsWord(Trim(RemoveLabels(w + punct + tail), NonWord), w, punct);
  }

  /** Step 2 leaves a text that starts with a word alone when only non-word
      characters precede the word and the word is not the `answer:` label. */
  lemma {:induction false} StripLeadingNoiseSkipsNoise(lead: string, rest: string)
    requires AllIn(lead, NonWord)
    requires rest != [] && IsWordChar(rest[0]) && !AnswerLabelAt(rest, 0)
    ensures StripLeadingNoise(lead + rest) == rest
  {
    var s := lead + rest;
    var n := LeadRun(s, Whitespace);
    SpaceIsNotWord(s[|lead|]);
    assert n <= |lead|;
    AnswerLabelStartsWord(s, n);
    if n == |lead| {
      assert s[n..] == rest;
      if n + |LeadingAnswer| <= |s| {
        assert s[n..n + |LeadingAnswer|] == rest[0..|LeadingAnswer|];
      }
    }
    assert !AnswerLabelAt(s, n);
    LeadRunIs(s, NonWord, |lead|);
    assert s[|lead|..] == rest;
  }

  /** A word followed by punctuation and then whitespace starts with the
      `answer:` label only when the word is "answer" in some letter case. */
  lemma AnswerLabelNeedsAnswerWord(w: string, punct: string, tail: string)
    requires IsWord(w) && AllIn(punct, NonWord)
    requires tail == [] || IsSpace(tail[0])
    ensures AnswerLabelAt(w + punct + tail, 0) ==> LowerStr(w) == "answer"
  {
    var x := w + punct + tail;
    if AnswerLabelAt(x, 0) {
      var l := |LeadingAnswer|;
      assert forall k :: 0 <= k < l ==> Lower(x[k]) == LowerStr(x[0..l])[k] == LeadingAnswer[k];
      assert forall k :: 0 <= k < l - 1 ==> IsWordChar(LeadingAnswer[k]);
      assert forall k :: 0 <= k < l - 1 ==> IsWordChar(x[k]);
      assert x[l - 1] == ':';
      if |w| < |x| {
        SpaceIsNotWord(x[|w|]);
        assert !IsWordChar(x[|w|]);
      }
      assert |w| >= l - 1;
      assert |w| <= l - 1;
      assert x[..l - 1] == w;
      assert forall k :: 0 <= k < |w| ==> LowerStr(w)[k] == "answer"[k];
    }
  }

  /** Steps 2 to 5 on a reply that opens with non-word noise followed by a
      word: the word decides, whatever follows the first whitespace. */
  lemma ReplyFirstWordDecides(lead: string, w: string, punct: string, tail: string)
    requires AllIn(lead, NonWord)
    requires IsWord(w) && AllIn(punct, NonWord) && AllIn(punct, NonSpace)
    requires tail == [] || IsSpace(tail[0])
    requires !LabelCouldEndWord(w, punct)
    requires LowerStr(w) != "answer"
    ensures ClassifyReply(lead + w + punct + tail) == Returned(Verdict(LowerStr(w)))
  {
    AnswerLabelNeedsAnswerWord(w, punct, tail);
    assert lead + w + punct + tail == lead + (w + punct + tail);
    StripLeadingNoiseSkipsNoise(lead, w + punct + tail);
    FirstWordDecides(w, punct, tail);
  }

  // ---------------------------------------------------------------------
  // Echo removal (step 1)

  /** A reply that repeats the prompt is classified on what follows the
      prompt, stripped of whitespace, exactly as if the prompt were empty. */
  lemma EchoRemoved(prompt: string, x: string)
    ensures CheckDepression(prompt + x, prompt) == ClassifyReply(Strip(x))
    ensures CheckDepression(prompt + x, prompt) == CheckDepression(x, [])
  {
    assert prompt <= prompt + x;
    assert (prompt + x)[|prompt|..] == x;
    assert [] <= x && x[0..] == x;
  }

  /** Stripping a word with its punctuation and a whitespace-led tail keeps
      the word and the punctuation, followed by a stripped tail `tail'` that
      is empty or starts with whitespace. */
  lemma StripKeepsWord(w: string, punct: string, tail: string) returns (tail': string)
    requires IsWord(w) && AllIn(punct, NonSpace)
    requires tail == [] || IsSpace(tail[0])
    ensures Strip(w + punct + tail) == w + punct + tail'
    ensures tail' == [] || IsSpace(tail'[0])
  {
    var a := w + punct;
    SpaceIsNotWord(w[0]);
    SpaceIsNotWord(w[|w| - 1]);
    assert !IsSpace(a[|a| - 1]);
    TrimAroundCore(a, tail, Whitespace);
    tail' := Strip(a + tail)[|a|..];
  }

  /** Whatever the prompt, a reply that repeats it and goes on with a word,
      its punctuation and a whitespace-led tail is classified by the word. */
  lemma EchoedFirstWordDecides(prompt: string, w: string, punct: string, tail: string)
    requires IsWord(w) && AllIn(punct, NonWord) && AllIn(punct, NonSpace)
    requires tail == [] || IsSpace(tail[0])
    requires !LabelCouldEndWord(w, punct)
    requires LowerStr(w) != "answer"
    ensures CheckDepression(prompt + w + punct + tail, prompt) == Returned(Verdict(LowerStr(w)))
  {
    var x := w + punct + tail;
    assert prompt + w + punct + tail == prompt + x;
    EchoRemoved(prompt, x);
    StrippedFirstWordDecides(w, punct, tail);
  }

  /** The same for the stripped continuation alone. */
  lemma StrippedFirstWordDecides(w: string, punct: string, tail: string)
    requires IsWord(w) && AllIn(punct, NonWord) && AllIn(punct, NonSpace)
    requires tail == [] || IsSpace(tail[0])
    requires !LabelCouldEndWord(w, punct)
    requires LowerStr(w) != "answer"
    ensures ClassifyReply(Strip(w + punct + tail)) == Returned(Verdict(LowerStr(w)))
  {
    var tail' := StripKeepsWord(w, punct, tail);
    BareFirstWordDecides(w, punct, tail');
  }

  /** A reply that starts with the word itself is classified by the word. */
  lemma BareFirstWordDecides(w: string, punct: string, tail: string)
    requires IsWord(w) && AllIn(punct, NonWord) && AllIn(punct, NonSpace)
    requires tail == [] || IsSpace(tail[0])
    requires !LabelCouldEndWord(w, punct)
    requires LowerStr(w) != "answer"
    ensures ClassifyReply(w + punct + tail) == Returned(Verdict(LowerStr(w)))
  {
    assert [] + w + punct + tail == w + punct + tail;
    ReplyFirstWordDecides([], w, punct, tail);
  }

  // ---------------------------------------------------------------------
  // The leading label and noise (step 2) and "no content" (step 3)

  /** The whole reply, after its leading whitespace, is an `answer:` label
      in any case followed only by whitespace. */
  predicate BareAnswerLabel(d: string) {
    var n := LeadRun(d, Whitespace);
    AnswerLabelAt(d, n) && AllIn(d[n + |LeadingAnswer|..], Whitespace)
  }

  /** Once the echo is gone, the reply means "no content" (-2) exactly when
      it has no word character at all or is a bare `answer:` label. */
  lemma NoContentExactly(d: string)
    ensures ClassifyReply(d) == Returned(NoContent) <==> AllIn(d, NonWord) || BareAnswerLabel(d)
  {
    var n := LeadRun(d, Whitespace);
    if AnswerLabelAt(d, n) {
      AnswerLabelStartsWord(d, n);
      assert !AllIn(d, NonWord);
      EmptyAfterLabel(d);
    } else {
      EmptyWithoutLabel(d);
    }
  }

  /** With a leading `answer:` label, step 2 leaves nothing exactly when
      only whitespace follows the label. */
  lemma EmptyAfterLabel(d: string)
    requires AnswerLabelAt(d, LeadRun(d, Whitespace))
    ensures StripLeadingNoise(d) == [] <==> BareAnswerLabel(d)
  {
    var n := LeadRun(d, Whitespace);
    var rest := d[n + |LeadingAnswer|..];
    assert StripLeadingNoise(d) == TrimStart(rest, Whitespace);
  }

  /** Without a leading label, step 2 leaves nothing exactly when the text
      has no word character. */
  lemma EmptyWithoutLabel(d: string)
    requires !AnswerLabelAt(d, LeadRun(d, Whitespace))
    ensures !BareAnswerLabel(d)
    ensures StripLeadingNoise(d) == [] <==> AllIn(d, NonWord)
  {
    assert StripLeadingNoise(d) == TrimStart(d, NonWord);
  }

  /** An `answer:` label in any case, with whitespace around it, is removed
      together with that whitespace. */
  lemma LeadingAnswerStripped(ws: string, tag: string, ws2: string, rest: string)
    requires AllIn(ws, Whitespace) && AllIn(ws2, Whitespace)
    requires LowerStr(tag) == LeadingAnswer
    requires rest == [] || !IsSpace(rest[0])
    ensures StripLeadingNoise(ws + tag + ws2 + rest) == rest
  {
    var s := ws + tag + ws2 + rest;
    var n := |ws|;
    var m := n + |LeadingAnswer|;
    assert s[n] == tag[0];
    assert Lower(tag[0]) == 'a';
    LeadRunIs(s, Whitespace, n);
    assert s[n..m] == tag;
    assert AnswerLabelAt(s, n);
    var after := s[m..];
    assert after == ws2 + rest;
    LeadRunIs(after, Whitespace, |ws2|);
    assert after[|ws2|..] == rest;
  }

  /** A leading `answer:` label in any case is skipped and the word after it
      decides. */
  lemma AnswerLabelThenWordDecides(ws: string, tag: string, ws2: string,
                                   w: string, punct: string, tail: string)
    requires AllIn(ws, Whitespace) && AllIn(ws2, Whitespace)
    requires LowerStr(tag) == LeadingAnswer
    requires IsWord(w) && AllIn(punct, NonWord) && AllIn(punct, NonSpace)
    requires tail == [] || IsSpace(tail[0])
    requires !LabelCouldEndWord(w, punct)
    ensures ClassifyReply(ws + tag + ws2 + w + punct + tail) == Returned(Verdict(LowerStr(w)))
  {
    var rest := w + punct + tail;
    assert ws + tag + ws2 + w + punct + tail == ws + tag + ws2 + rest;
    SpaceIsNotWord(w[0]);
    LeadingAnswerStripped(ws, tag, ws2, rest);
    FirstWordDecides(w, punct, tail);
  }

  /** Step 2 leaves a text unchanged exactly when the text is empty or starts
      with a word character and not with an `answer:` label. */
  lemma StripLeadingNoiseFixpoint(r: string)
    ensures StripLeadingNoise(r) == r <==> r == [] || (IsWordChar(r[0]) && !AnswerLabelAt(r, 0))
  {
    if r != [] {
      var n := LeadRun(r, Whitespace);
      AnswerLabelStartsWord(r, n);
      AnswerLabelStartsWord(r, 0);
      SpaceIsNotWord(r[0]);
      if IsWordChar(r[0]) {
        LeadRunIs(r, Whitespace, 0);
        LeadRunIs(r, NonWord, 0);
      }
    }
  }

  /** Step 2 on a reply that opens with `answer: ` in lower case. */
  lemma StripsLowerAnswer(s: string)
    requires |s| >= 8 && s[..8] == "answer: "
    requires s[8..] == [] || !IsSpace(s[8])
    ensures StripLeadingNoise(s) == s[8..]
  {
    var tag := s[..7];
    assert tag == "answer:";
    assert LowerStr(tag) == LeadingAnswer;
    assert s == [] + tag + s[7..8] + s[8..];
    LeadingAnswerStripped([], tag, s[7..8], s[8..]);
  }

  /** Step 2 is not idempotent: a second pass strips a second label. */
  lemma StripLeadingNoiseNotIdempotent(s: string)
    requires s == "answer: answer: yes"
    ensures StripLeadingNoise(s) == s[8..]
    ensures StripLeadingNoise(StripLeadingNoise(s)) == s[16..]
    ensures StripLeadingNoise(StripLeadingNoise(s)) != StripLeadingNoise(s)
  {
    StripsLowerAnswer(s);
    var t := s[8..];
    assert t[..8] == "answer: " && t[8..] == s[16..];
    StripsLowerAnswer(t);
  }

  // ---------------------------------------------------------------------
  // The raising case (steps 4 and 5)

  /** A reply that is a `Response: ` label followed only by non-word
      characters passes the "no content" check but leaves no word to take:
      the classifier raises. The lemma covers replies that do not start
      with the prompt. */
  lemma ResponseLabelThenNoiseRaises(prompt: string, x: string)
    requires AllIn(x, NonWord)
    requires !(prompt <= ResponseLabel + x)
    ensures CheckDepression(ResponseLabel + x, prompt) == RaisedIndexError
  {
    var d := ResponseLabel + x;
    assert d[0] == 'R';
    SpaceIsNotWord(d[0]);
    LeadRunIs(d, Whitespace, 0);
    AnswerLabelStartsWord(d, 0);
    LeadRunIs(d, NonWord, 0);
    assert StripLeadingNoise(d) == d;
    assert !(AnswerLabel <= d);
    assert ResponseLabel <= d && d[|ResponseLabel|..] == x;
    RemoveLabelsKeepsNoise(x);
    assert RemoveLabels(d) == x;
  }

  /** A reply whose first character differs from the prompt's is not an
      echo, and a reply that starts with a word decides by that word. */
  lemma NotEchoedFirstWordDecides(prompt: string, w: string, punct: string, tail: string)
    requires prompt != [] && IsWord(w) && w[0] != prompt[0]
    requires AllIn(punct, NonWord) && AllIn(punct, NonSpace)
    requires tail == [] || IsSpace(tail[0])
    requires !LabelCouldEndWord(w, punct)
    requires LowerStr(w) != "answer"
    ensures CheckDepression(w + punct + tail, prompt) == Returned(Verdict(LowerStr(w)))
  {
    var g := w + punct + tail;
    assert g[0] == w[0];
    assert !(prompt <= g);
    assert g == [] + w + punct + tail;
    ReplyFirstWordDecides([], w, punct, tail);
  }
}
