/** String operations the reply classifier is built from: runs of a character
    class at either end of a string, trimming them (`str.strip()` and the
    `^[\s\W]+|[\s\W]+$` substitution), and `str.split()` with no argument. */
module Text {
  import opened Chars

  /** The character classes that are trimmed or scanned. */
  datatype Class = Whitespace | NonWord | NonSpace

  predicate InClass(c: char, k: Class) {
    match k
    case Whitespace => IsSpace(c)
    case NonWord => !IsWordChar(c)
    case NonSpace => !IsSpace(c)
  }

  predicate AllIn(s: string, k: Class) {
    forall i :: 0 <= i < |s| ==> InClass(s[i], k)
  }

  /** A non-empty run of word characters. */
  predicate IsWord(w: string) {
    w != [] && forall i :: 0 <= i < |w| ==> IsWordChar(w[i])
  }

  /** Length of the longest prefix of `s` made of class `k`. */
  function LeadRun(s: string, k: Class): (n: nat)
    ensures n <= |s|
    ensures forall i :: 0 <= i < n ==> InClass(s[i], k)
    ensures n < |s| ==> !InClass(s[n], k)
  {
    if |s| == 0 || !InClass(s[0], k) then 0 else 1 + LeadRun(s[1..], k)
  }

  /** Length of the longest suffix of `s` made of class `k`. */
  function TrailRun(s: string, k: Class): (n: nat)
    ensures n <= |s|
    ensures forall i :: |s| - n <= i < |s| ==> InClass(s[i], k)
    ensures n < |s| ==> !InClass(s[|s| - 1 - n], k)
  {
    if |s| == 0 || !InClass(s[|s| - 1], k) then 0 else 1 + TrailRun(s[..|s| - 1], k)
  }

  /** The leading run is determined by its two defining facts. */
  lemma LeadRunIs(s: string, k: Class, m: nat)
    requires m <= |s|
    requires forall i :: 0 <= i < m ==> InClass(s[i], k)
    requires m < |s| ==> !InClass(s[m], k)
    ensures LeadRun(s, k) == m
  {
  }

  /** The trailing run is determined by its two defining facts. */
  lemma TrailRunIs(s: string, k: Class, m: nat)
    requires m <= |s|
    requires forall i :: |s| - m <= i < |s| ==> InClass(s[i], k)
    requires m < |s| ==> !InClass(s[|s| - 1 - m], k)
    ensures TrailRun(s, k) == m
  {
  }

  /** Drops the leading run of class `k` (a `^[...]+` substitution). */
  function TrimStart(s: string, k: Class): (r: string)
    ensures |r| <= |s|
    ensures r == s[|s| - |r|..]
    ensures forall i :: 0 <= i < |s| - |r| ==> InClass(s[i], k)
    ensures r == [] || !InClass(r[0], k)
    ensures r == [] <==> AllIn(s, k)
  {
    s[LeadRun(s, k)..]
  }

  /** Drops the trailing run of class `k` (a `[...]+$` substitution). */
  function TrimEnd(s: string, k: Class): (r: string)
    ensures |r| <= |s|
    ensures r == s[..|r|]
    ensures forall i :: |r| <= i < |s| ==> InClass(s[i], k)
    ensures r == [] || !InClass(r[|r| - 1], k)
  {
    s[..|s| - TrailRun(s, k)]
  }

  /** Drops the runs of class `k` at both ends: `str.strip()` for
      `Whitespace`, `re.sub(r'^[\s\W]+|[\s\W]+$', '', s)` for `NonWord`.
      The result is the infix that starts after the leading run and leaves
      only class-`k` characters behind it. */
  function Trim(s: string, k: Class): (r: string)
    ensures |r| <= |s|
    ensures r == [] <==> AllIn(s, k)
    ensures r != [] ==> !InClass(r[0], k) && !InClass(r[|r| - 1], k)
    ensures LeadRun(s, k) + |r| <= |s|
    ensures r == s[LeadRun(s, k)..LeadRun(s, k) + |r|]
    ensures forall i :: LeadRun(s, k) + |r| <= i < |s| ==> InClass(s[i], k)
  {
    TrimEnd(TrimStart(s, k), k)
  }

  /** `r` is what is left of `s` once the leading and the trailing
      whitespace runs are removed: an infix of `s` with only whitespace
      before and after it, empty or bounded by non-whitespace characters. */
  predicate StrippedOf(r: string, s: string) {
    var i := LeadRun(s, Whitespace);
    && i + |r| <= |s|
    && r == s[i..i + |r|]
    && (forall j :: 0 <= j < i ==> IsSpace(s[j]))
    && (forall j :: i + |r| <= j < |s| ==> IsSpace(s[j]))
    && (r == [] || (!IsSpace(r[0]) && !IsSpace(r[|r| - 1])))
  }

  /** A slice whose characters are all of class `k` is all of class `k`. */
  lemma AllInSlice(s: string, i: nat, j: nat, k: Class)
    requires i <= j <= |s|
    requires forall x :: i <= x < j ==> InClass(s[x], k)
    ensures AllIn(s[i..j], k)
  {
    assert forall x :: 0 <= x < j - i ==> s[i..j][x] == s[i + x];
  }

  /** Lower-casing keeps every character class, so a string is all of a
      class exactly when its lower-cased form is. */
  lemma LowerKeepsClass(s: string, k: Class)
    ensures AllIn(LowerStr(s), k) <==> AllIn(s, k)
  {
    var r := LowerStr(s);
    assert forall i :: 0 <= i < |s| ==> (InClass(r[i], k) <==> InClass(s[i], k));
  }

  /** Python's `str.strip()` with no argument. */
  function Strip(s: string): (r: string)
    ensures StrippedOf(r, s)
    ensures r == [] <==> AllIn(s, Whitespace)
  {
    Trim(s, Whitespace)
  }

  /** Trimming twice trims nothing more. */
  lemma TrimIdempotent(s: string, k: Class)
    ensures Trim(Trim(s, k), k) == Trim(s, k)
  {
    var t := Trim(s, k);
    if t != [] {
      LeadRunIs(t, k, 0);
      assert !InClass(t[|t| - 1], k);
      assert Trim(t, k) == t[0..|Trim(t, k)|];
    }
  }

  /** Trimming `a + b`, where `a` begins and ends outside class `k`, keeps
      all of `a` and a prefix of `b`. */
  lemma TrimAroundCore(a: string, b: string, k: Class)
    requires a != [] && !InClass(a[0], k) && !InClass(a[|a| - 1], k)
    ensures |a| <= |Trim(a + b, k)|
    ensures Trim(a + b, k) == a + b[..|Trim(a + b, k)| - |a|]
  {
    var s := a + b;
    LeadRunIs(s, k, 0);
    var r := Trim(s, k);
    assert !InClass(s[|a| - 1], k);
    assert r == s[..|r|];
  }

  /** Trimming `a + b` removes all of `b` when `b` is entirely of class `k`. */
  lemma TrimDropsTail(a: string, b: string, k: Class)
    requires a != [] && !InClass(a[0], k) && !InClass(a[|a| - 1], k)
    requires AllIn(b, k)
    ensures Trim(a + b, k) == a
  {
    var s := a + b;
    LeadRunIs(s, k, 0);
    assert s[0..] == s;
    assert s[|s| - 1 - |b|] == a[|a| - 1];
    TrailRunIs(s, k, |b|);
    assert s[..|a|] == a;
  }

  /** Trimming keeps only characters of the text, so it keeps any class
      the whole text belongs to. */
  lemma TrimKeepsClass(s: string, k: Class, k': Class)
    requires AllIn(s, k')
    ensures AllIn(Trim(s, k), k')
  {
    var r := Trim(s, k);
    var n := LeadRun(s, k);
    assert forall i :: 0 <= i < |r| ==> r[i] == s[n + i];
  }

  /** Every entry is a non-empty run of non-whitespace characters. */
  predicate AreWords(words: seq<string>) {
    forall i :: 0 <= i < |words| ==> words[i] != [] && AllIn(words[i], NonSpace)
  }

  /** Putting a word in front of a list of words gives a list of words. */
  lemma AreWordsCons(w: string, rest: seq<string>)
    requires w != [] && AllIn(w, NonSpace) && AreWords(rest)
    ensures AreWords([w] + rest)
  {
    var words := [w] + rest;
    assert forall i :: 1 <= i < |words| ==> words[i] == rest[i - 1];
  }

  /** Dropping the first word of a list of words leaves a list of words. */
  lemma AreWordsTail(words: seq<string>)
    requires words != [] && AreWords(words)
    ensures AreWords(words[1..])
  {
    var rest := words[1..];
    assert forall i :: 0 <= i < |rest| ==> rest[i] == words[i + 1];
  }

  /** Python's `str.split()` with no argument: the maximal runs of
      non-whitespace characters, in order; leading, trailing and repeated
      whitespace produce no empty words. */
  function SplitWords(s: string): (words: seq<string>)
    ensures AreWords(words)
    ensures words == [] <==> AllIn(s, Whitespace)
    decreases |s|
  {
    var t := TrimStart(s, Whitespace);
    if t == [] then []
    else
      var n := LeadRun(t, NonSpace);
      assert n >= 1 by {
        assert !IsSpace(t[0]);
      }
      var w := t[..n];
      assert AllIn(w, NonSpace);
      var rest := SplitWords(t[n..]);
      AreWordsCons(w, rest);
      [w] + rest
  }

  /** The first word of a string that does not start with whitespace is
      its longest whitespace-free prefix. */
  lemma FirstWord(s: string)
    requires s != [] && !IsSpace(s[0])
    ensures SplitWords(s) != []
    ensures SplitWords(s)[0] == s[..LeadRun(s, NonSpace)]
  {
    LeadRunIs(s, Whitespace, 0);
  }

  /** Joins words with one space between neighbours (`' '.join(words)`). */
  function JoinWords(words: seq<string>): (s: string) {
    if |words| == 0 then []
    else if |words| == 1 then words[0]
    else words[0] + " " + JoinWords(words[1..])
  }

  /** A leading space does not change how a string splits. */
  lemma SplitSkipsSpace(s: string)
    ensures SplitWords(" " + s) == SplitWords(s)
  {
    var t := " " + s;
    assert t[1..] == s;
    assert LeadRun(t, Whitespace) == 1 + LeadRun(s, Whitespace);
    assert TrimStart(t, Whitespace) == TrimStart(s, Whitespace);
  }

  /** A string with no whitespace splits into itself. */
  lemma SplitSingle(w: string)
    requires w != [] && AllIn(w, NonSpace)
    ensures SplitWords(w) == [w]
  {
    LeadRunIs(w, NonSpace, |w|);
    LeadRunIs(w, Whitespace, 0);
    assert w[..|w|] == w && w[|w|..] == [];
    assert SplitWords([]) == [];
  }

  /** A whitespace-free word followed by a space splits off as the first word. */
  lemma SplitFirst(w: string, rest: string)
    requires w != [] && AllIn(w, NonSpace)
    ensures SplitWords(w + " " + rest) == [w] + SplitWords(rest)
  {
    var s := w + " " + rest;
    LeadRunIs(s, NonSpace, |w|);
    LeadRunIs(s, Whitespace, 0);
    assert s[..|w|] == w;
    assert s[|w|..] == " " + rest;
    SplitSkipsSpace(rest);
  }

  /** `split()` undoes `' '.join(...)` for words without whitespace. */
  lemma {:induction false} SplitJoin(words: seq<string>)
    requires AreWords(words)
    ensures SplitWords(JoinWords(words)) == words
    decreases |words|
  {
    if |words| == 0 {
    } else if |words| == 1 {
      SplitSingle(words[0]);
    } else {
      var w, rest := words[0], words[1..];
      AreWordsTail(words);
      var j := JoinWords(rest);
      SplitJoin(rest);
      SplitFirst(w, j);
      assert JoinWords(words) == w + " " + j;
      assert [w] + rest == words;
    }
  }

  /** The gaps `gaps[0] .. gaps[|words|]` put around and between `words`:
      `gaps[0] + words[0] + gaps[1] + ... + words[k - 1] + gaps[k]`. */
  function Weave(gaps: seq<string>, words: seq<string>): (s: string)
    requires |gaps| == |words| + 1
    ensures words == [] ==> s == gaps[0]
    decreases |words|
  {
    if words == [] then gaps[0] else gaps[0] + words[0] + Weave(gaps[1..], words[1..])
  }

  /** The gaps are whitespace, and every gap between two words is
      non-empty; the outer two may be empty. */
  predicate Separates(gaps: seq<string>, words: seq<string>) {
    && |gaps| == |words| + 1
    && (forall i :: 0 <= i < |gaps| ==> AllIn(gaps[i], Whitespace))
    && (forall i :: 0 < i < |words| ==> gaps[i] != [])
  }

  /** Weaving a first word and gap in front of the rest. */
  lemma WeaveCons(g: string, w: string, gaps: seq<string>, words: seq<string>)
    requires |gaps| == |words| + 1
    ensures Weave([g] + gaps, [w] + words) == g + w + Weave(gaps, words)
  {
    assert ([g] + gaps)[1..] == gaps;
    assert ([w] + words)[1..] == words;
  }

  /** Gaps in front of a rest that starts with whitespace stay separating
      once a gap and a word are put in front. */
  lemma SeparatesCons(g: string, w: string, gaps: seq<string>, words: seq<string>)
    requires AllIn(g, Whitespace) && Separates(gaps, words)
    requires words != [] ==> gaps[0] != []
    ensures Separates([g] + gaps, [w] + words)
  {
    var gs, ws := [g] + gaps, [w] + words;
    assert forall i :: 0 < i < |gs| ==> gs[i] == gaps[i - 1];
  }

  /** One step of `str.split()` on a string with a non-whitespace
      character: leading whitespace, the first word, and the rest, which is
      empty or starts with whitespace. */
  lemma SplitStep(s: string) returns (lead: string, w: string, rest: string)
    requires !AllIn(s, Whitespace)
    ensures s == lead + w + rest && |rest| < |s|
    ensures AllIn(lead, Whitespace)
    ensures IsSpace(s[0]) ==> lead != []
    ensures rest == [] || IsSpace(rest[0])
    ensures SplitWords(s) == [w] + SplitWords(rest)
  {
    var t := TrimStart(s, Whitespace);
    lead := s[..|s| - |t|];
    var n := LeadRun(t, NonSpace);
    w, rest := t[..n], t[n..];
    assert s == lead + w + rest;
  }

  /** `str.split()` finds exactly the words that, woven with whitespace
      gaps (non-empty between two words), give back the string: every word
      is a maximal run of non-whitespace characters, and nothing but
      whitespace is dropped. */
  lemma {:induction false} SplitReconstructs(s: string) returns (gaps: seq<string>)
    ensures Separates(gaps, SplitWords(s))
    ensures Weave(gaps, SplitWords(s)) == s
    ensures s != [] && IsSpace(s[0]) ==> gaps[0] != []
    decreases |s|
  {
    if AllIn(s, Whitespace) {
      gaps := [s];
    } else {
      var lead, w, rest := SplitStep(s);
      var words := SplitWords(rest);
      var g := SplitReconstructs(rest);
      gaps := [lead] + g;
      WeaveCons(lead, w, g, words);
      SeparatesCons(lead, w, g, words);
    }
  }
}
