/** The prompt sent to the language model: a fixed template with the post
    text and the image description filled into its two slots. The filled
    values are inserted verbatim; braces inside them are not re-read as
    template fields. */
module Prompt {

  /** A template with two slots: the text before the first slot, between
      the slots, and after the second. */
  datatype Template = Template(head: string, middle: string, tail: string)

  /** The analysis-request template. */
  const Analysis: Template := Template(
    "\nSocial Media Post:\n\n",
    "\n\nImage Description:\n\n",
    "\n\nAnalysis Request:\n"
    + "Question: Based on the content of the above social media post and the associated image description, are there discernible signs or indicators of depression?\n"
    + "Required Response Format: Please provide a 'yes' or 'no' answer, followed by a brief explanation of the reasoning behind this conclusion.\n")

  /** The offset of the second slot for a first value of length `firstLen`. */
  function SecondStart(t: Template, firstLen: nat): (n: nat) {
    |t.head| + firstLen + |t.middle|
  }

  /** `template.format(first, second)`: both values can be read back
      verbatim at their offsets, between the fixed template parts. */
  function Format(t: Template, first: string, second: string): (p: string)
    ensures |p| == |t.head| + |first| + |t.middle| + |second| + |t.tail|
    ensures p[..|t.head|] == t.head
    ensures p[|t.head|..|t.head| + |first|] == first
    ensures p[|t.head| + |first|..SecondStart(t, |first|)] == t.middle
    ensures p[SecondStart(t, |first|)..SecondStart(t, |first|) + |second|] == second
    ensures p[SecondStart(t, |first|) + |second|..] == t.tail
  {
    var p := t.head + first + t.middle + second + t.tail;
    assert p == t.head + (first + (t.middle + (second + t.tail)));
    p
  }

  /** Reads the first value back out of a formatted text, given its length. */
  function FirstOf(t: Template, p: string, firstLen: nat): (first: string)
    requires |t.head| + firstLen <= |p|
    ensures |first| == firstLen
  {
    p[|t.head|..|t.head| + firstLen]
  }

  /** Reads the second value back out of a formatted text, given the first
      value's length. */
  function SecondOf(t: Template, p: string, firstLen: nat): (second: string)
    requires SecondStart(t, firstLen) + |t.tail| <= |p|
    ensures |second| == |p| - SecondStart(t, firstLen) - |t.tail|
  {
    p[SecondStart(t, firstLen)..|p| - |t.tail|]
  }

  /** Filling a template loses nothing: both values are recovered. */
  lemma FormatRoundTrip(t: Template, first: string, second: string)
    ensures FirstOf(t, Format(t, first, second), |first|) == first
    ensures SecondOf(t, Format(t, first, second), |first|) == second
  {
  }

  /** Different values with the same first length give different texts. */
  lemma FormatInjective(t: Template, first: string, second: string, first': string, second': string)
    requires |first| == |first'|
    requires Format(t, first, second) == Format(t, first', second')
    ensures first == first' && second == second'
  {
    FormatRoundTrip(t, first, second);
    FormatRoundTrip(t, first', second');
  }

  /** `prompt_text` for a post and its image description: both can be
      read back verbatim from the prompt. */
  function Compose(post: string, image: string): (p: string)
    ensures |p| == |Analysis.head| + |post| + |Analysis.middle| + |image| + |Analysis.tail|
    ensures FirstOf(Analysis, p, |post|) == post
    ensures SecondOf(Analysis, p, |post|) == image
  {
    FormatRoundTrip(Analysis, post, image);
    Format(Analysis, post, image)
  }

  /** Every prompt opens with a line break. */
  lemma ComposeStartsWithNewline(post: string, image: string)
    ensures Compose(post, image) != [] && Compose(post, image)[0] == '\n'
  {
    var p := Compose(post, image);
    assert p[..|Analysis.head|][0] == Analysis.head[0];
  }
}
