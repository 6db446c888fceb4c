/** Which replies the classifier reads as yes, as no and as unparseable,
    stated on the text left once the labels are deleted and the non-word
    runs trimmed (`Cleaned`), in both directions: the verdict is 1 exactly
    when that text opens with the word "yes" in any letter case, followed
    by nothing but punctuation up to whitespace or the end, and likewise 0
    for "no". */
module Decision {
  import opened Chars
  import opened Text
  import opened Reply
  import opened ReplyFacts

  /** `w + punct + tail` is a word as `split()` and the non-word trimming
      see it: a run of word characters, then punctuation that is neither a
      word character nor whitespace, then the end or whitespace. */
  predicate WordShape(w: string, punct: string, tail: string) {
    && IsWord(w)
    && AllIn(punct, NonWord)
    && AllIn(punct, NonSpace)
    && (tail == [] || IsSpace(tail[0]))
  }

  /** `c` opens with a word whose lower-cased form is `v`. */
  ghost predicate OpensWith(c: string, v: string) {
    exists w, punct, tail :: c == w + punct + tail && WordShape(w, punct, tail) && LowerStr(w) == v
  }

  /** The first word `split()` finds in a text that starts with a word
      character is its prefix up to the first whitespace, `c[..n]`. */
  lemma FirstWordEnds(c: string) returns (n: nat)
    requires c != [] && IsWordChar(c[0])
    ensures 1 <= n <= |c|
    ensures forall i :: 0 <= i < n ==> InClass(c[i], NonSpace)
    ensures n == |c| || IsSpace(c[n])
    ensures SplitWords(c) != [] && SplitWords(c)[0] == c[..n]
  {
    SpaceIsNotWord(c[0]);
    FirstWord(c);
    n := LeadRun(c, NonSpace);
  }

  /** A prefix `c[..n]` that starts with a word character splits into a
      part `c[..m]` that ends with a word character and a trailing
      punctuation run `c[m..n]`. */
  lemma PunctuationRun(c: string, n: nat) returns (m: nat)
    requires 1 <= n <= |c| && IsWordChar(c[0])
    ensures 1 <= m <= n
    ensures IsWordChar(c[m - 1])
    ensures forall i :: m <= i < n ==> InClass(c[i], NonWord)
  {
    var first := c[..n];
    var k := TrailRun(first, NonWord);
    assert first[0] == c[0];
    m := n - k;
    assert first[m - 1] == c[m - 1];
  }

  /** Trimming the lower-cased `a + b` leaves the lower-cased `a` when `a`
      begins and ends with word characters and `b` has none. */
  lemma TrimLoweredTail(a: string, b: string)
    requires a != [] && IsWordChar(a[0]) && IsWordChar(a[|a| - 1])
    requires AllIn(b, NonWord)
    ensures Trim(LowerStr(a + b), NonWord) == LowerStr(a)
  {
    LowerStrAppend(a, b);
    LowerKeepsClass(b, NonWord);
    TrimDropsTail(LowerStr(a), LowerStr(b), NonWord);
  }

  /** A prefix `c[..n]` up to the first whitespace of a text that starts
      with a word character, trimmed and lower-cased, is its word part
      `c[..m]` lower-cased; `c[m..n]` is the punctuation the trimming drops
      and `c[n..]` the rest. */
  lemma Tokenize(c: string, n: nat) returns (m: nat)
    requires c != [] && IsWordChar(c[0])
    requires 1 <= n <= |c|
    requires forall i :: 0 <= i < n ==> InClass(c[i], NonSpace)
    requires n == |c| || IsSpace(c[n])
    ensures 1 <= m <= n
    ensures c == c[..m] + c[m..n] + c[n..]
    ensures AllIn(c[m..n], NonWord) && AllIn(c[m..n], NonSpace)
    ensures c[n..] == [] || IsSpace(c[n..][0])
    ensures Trim(LowerStr(c[..n]), NonWord) == LowerStr(c[..m])
  {
    m := PunctuationRun(c, n);
    ThreeParts(c, m, n);
    AllInSlice(c, m, n, NonWord);
    AllInSlice(c, m, n, NonSpace);
    TrimLoweredTail(c[..m], c[m..n]);
  }

  /** Cutting a string at `m` and at `n` gives three parts that put it
      back together, and the first part keeps its first and last
      characters. */
  lemma ThreeParts(c: string, m: nat, n: nat)
    requires 1 <= m <= n <= |c|
    ensures c[..n] == c[..m] + c[m..n]
    ensures c == c[..m] + c[m..n] + c[n..]
    ensures c[..m][0] == c[0] && c[..m][m - 1] == c[m - 1]
    ensures n < |c| ==> c[n..][0] == c[n]
  {
  }

  /** For a text that starts with a word character, the trimmed,
      lower-cased first token is the word `v` exactly when the text opens
      with a word that lower-cases to `v`. */
  lemma TokenIsWordIff(c: string, v: string)
    requires c != [] && IsWordChar(c[0]) && IsWord(v)
    ensures Trim(LowerStr(SplitWords(c)[0]), NonWord) == v <==> OpensWith(c, v)
  {
    var n := FirstWordEnds(c);
    var m := Tokenize(c, n);
    if LowerStr(c[..m]) == v {
      PartsOpen(c, m, n, v);
    }
    if OpensWith(c, v) {
      var w, punct, tail :| c == w + punct + tail && WordShape(w, punct, tail) && LowerStr(w) == v;
      OpeningToken(c, w, punct, tail);
    }
  }

  /** A text cut into a part that lower-cases to the word `v`, a
      punctuation run and a rest that starts with whitespace opens with
      `v`. */
  lemma PartsOpen(c: string, m: nat, n: nat, v: string)
    requires 1 <= m <= n <= |c| && c == c[..m] + c[m..n] + c[n..]
    requires AllIn(c[m..n], NonWord) && AllIn(c[m..n], NonSpace)
    requires c[n..] == [] || IsSpace(c[n..][0])
    requires LowerStr(c[..m]) == v && IsWord(v)
    ensures OpensWith(c, v)
  {
    var w, punct, tail := c[..m], c[m..n], c[n..];
    LowerWordIsWord(w, v);
    assert WordShape(w, punct, tail);
  }

  /** A string that lower-cases to a word is a word. */
  lemma LowerWordIsWord(w: string, v: string)
    requires LowerStr(w) == v && IsWord(v)
    ensures IsWord(w)
  {
    forall i | 0 <= i < |w|
      ensures IsWordChar(w[i])
    {
      assert IsWordChar(v[i]);
    }
  }

  /** A text made of `w`, its punctuation and a tail has `w` as its
      trimmed first token. */
  lemma OpeningToken(c: string, w: string, punct: string, tail: string)
    requires c == w + punct + tail && WordShape(w, punct, tail)
    ensures SplitWords(c) != []
    ensures Trim(LowerStr(SplitWords(c)[0]), NonWord) == LowerStr(w)
  {
    assert c[..|w|] == w;
    assert forall i :: |w| <= i < |c| && i < |w| + |punct| ==> c[i] == punct[i - |w|];
    if |c| > |w| + |punct| {
      assert c[|w| + |punct|] == tail[0];
    }
    FirstTokenIsWord(c, w, punct);
  }

  /** Steps 3 to 5, both directions, for every text `t` left by step 2:
      the verdict is 1 exactly when the cleaned text opens with "yes" in any
      letter case, 0 exactly when it opens with "no", and -1 exactly when
      the cleaned text is non-empty and opens with neither. */
  lemma ClassifyStrippedDecides(t: string)
    ensures ClassifyStripped(t) == Returned(Depressed) <==> OpensWith(Cleaned(t), "yes")
    ensures ClassifyStripped(t) == Returned(NotDepressed) <==> OpensWith(Cleaned(t), "no")
    ensures ClassifyStripped(t) == Returned(Unparseable) <==>
              Cleaned(t) != [] && !OpensWith(Cleaned(t), "yes") && !OpensWith(Cleaned(t), "no")
  {
    DecidedBy(t, "yes", Depressed);
    DecidedBy(t, "no", NotDepressed);
  }

  /** The verdict is `code` exactly when the cleaned text opens with the
      word `v` that `Verdict` maps to `code`. */
  lemma DecidedBy(t: string, v: string, code: int)
    requires (v == "yes" && code == Depressed) || (v == "no" && code == NotDepressed)
    ensures ClassifyStripped(t) == Returned(code) <==> OpensWith(Cleaned(t), v)
  {
    if Cleaned(t) != [] {
      AnswerIsWord(v);
      VerdictOfToken(t);
      TokenIsWordIff(Cleaned(t), v);
    }
  }

  /** "yes" and "no" are words. */
  lemma AnswerIsWord(v: string)
    requires v == "yes" || v == "no"
    ensures IsWord(v)
  {
  }

  /** When the cleaned text is non-empty, the verdict is that of its
      trimmed, lower-cased first token. */
  lemma VerdictOfToken(t: string)
    requires Cleaned(t) != []
    ensures IsWordChar(Cleaned(t)[0]) && SplitWords(Cleaned(t)) != []
    ensures ClassifyStripped(t) == Returned(Verdict(Trim(LowerStr(SplitWords(Cleaned(t))[0]), NonWord)))
  {
    SpaceIsNotWord(Cleaned(t)[0]);
    FirstWord(Cleaned(t));
  }

  /** `check_depression`, both directions: with `t` the reply after the
      echo removal and the leading strip, the function raises exactly when
      `t` is non-empty and the label deletion leaves no word character, and
      otherwise returns 1, 0 or -1 exactly as the cleaned text of `t` opens
      with "yes", with "no" or with neither. */
  lemma CheckDepressionDecides(generated: string, prompt: string)
    ensures var t := StripLeadingNoise(RemoveEcho(generated, prompt));
      && (CheckDepression(generated, prompt) == Returned(NoContent) <==> t == [])
      && (CheckDepression(generated, prompt) == RaisedIndexError <==>
            t != [] && AllIn(RemoveLabels(t), NonWord))
      && (CheckDepression(generated, prompt) == Returned(Depressed) <==> OpensWith(Cleaned(t), "yes"))
      && (CheckDepression(generated, prompt) == Returned(NotDepressed) <==> OpensWith(Cleaned(t), "no"))
      && (CheckDepression(generated, prompt) == Returned(Unparseable) <==>
            Cleaned(t) != [] && !OpensWith(Cleaned(t), "yes") && !OpensWith(Cleaned(t), "no"))
  {
    var t := StripLeadingNoise(RemoveEcho(generated, prompt));
    assert CheckDepression(generated, prompt) == ClassifyStripped(t);
    ClassifyStrippedDecides(t);
  }
}
