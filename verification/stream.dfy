/** Collecting the language model's streamed output: the fragments are
    appended, in the order they arrive, to an initially empty text. */
module Stream {

  /** The concatenation of all fragments, first to last. */
  function Flatten(frags: seq<string>): (s: string)
    decreases |frags|
  {
    if |frags| == 0 then [] else Flatten(frags[..|frags| - 1]) + frags[|frags| - 1]
  }

  /** A stream of one fragment yields that fragment. */
  lemma FlattenSingle(x: string)
    ensures Flatten([x]) == x
  {
    assert [x][..0] == [];
  }

  /** Total number of characters in the fragments. */
  function TotalLength(frags: seq<string>): (n: nat)
    decreases |frags|
  {
    if |frags| == 0 then 0 else TotalLength(frags[..|frags| - 1]) + |frags[|frags| - 1]|
  }

  /** Where fragment `i` starts in the concatenation. */
  function Offset(frags: seq<string>, i: nat): (n: nat)
    requires i <= |frags|
  {
    TotalLength(frags[..i])
  }

  /** Concatenation distributes over splitting the fragment list. */
  lemma {:induction false} FlattenAppend(xs: seq<string>, ys: seq<string>)
    ensures Flatten(xs + ys) == Flatten(xs) + Flatten(ys)
    decreases |ys|
  {
    if |ys| == 0 {
      assert xs + ys == xs;
    } else {
      var zs := xs + ys;
      var ys' := ys[..|ys| - 1];
      assert zs[..|zs| - 1] == xs + ys';
      FlattenAppend(xs, ys');
    }
  }

  /** The text is exactly as long as all fragments together. */
  lemma {:induction false} FlattenLength(frags: seq<string>)
    ensures |Flatten(frags)| == TotalLength(frags)
    decreases |frags|
  {
    if |frags| > 0 {
      FlattenLength(frags[..|frags| - 1]);
    }
  }

  /** No fragment is dropped or reordered: fragment `i` appears verbatim at
      its offset, after all the fragments before it. */
  lemma FragmentAtOffset(frags: seq<string>, i: nat)
    requires i < |frags|
    ensures Offset(frags, i) + |frags[i]| <= |Flatten(frags)|
    ensures Flatten(frags)[Offset(frags, i)..Offset(frags, i) + |frags[i]|] == frags[i]
  {
    assert frags == frags[..i] + [frags[i]] + frags[i + 1..];
    FlattenAppend(frags[..i] + [frags[i]], frags[i + 1..]);
    FlattenAppend(frags[..i], [frags[i]]);
    FlattenSingle(frags[i]);
    FlattenLength(frags[..i]);
  }

  /** `generated_text = ""; for item in output: generated_text += item`. */
  method CollectStream(frags: seq<string>) returns (generated: string)
    ensures generated == Flatten(frags)
    ensures |generated| == TotalLength(frags)
  {
    generated := "";
    var i := 0;
    while i < |frags|
      invariant 0 <= i <= |frags|
      invariant generated == Flatten(frags[..i])
    {
      assert frags[..i + 1][..i] == frags[..i];
      generated := generated + frags[i];
      i := i + 1;
    }
    assert frags[..|frags|] == frags;
    FlattenLength(frags);
  }
}
