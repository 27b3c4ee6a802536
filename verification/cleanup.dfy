/** The whitespace cleanup `fetch_webpage_content` applies to the text of a
    page: split into lines, strip each line, split each line on two spaces,
    strip each phrase, drop the empty phrases, join the rest with one space.
    The result is proved canonical (no surrounding whitespace, no line
    boundary, no two spaces in a row), the cleanup is idempotent, and it
    keeps every non-whitespace character in order. */
module Cleanup {
  import opened Chars
  import opened PyStr

  /** The separator the lines are split on. */
  const DoubleSpace: string := "  "

  /** The separator the chunks are joined with. */
  const OneSpace: string := " "

  /** The strings of `xs` one after another. This is `Join([], xs)` (see
      `ConcatIsJoin`); the non-whitespace proofs use this form because its
      recursion has no separator and no one-element case. */
  function Concat(xs: seq<string>): string {
    if xs == [] then [] else xs[0] + Concat(xs[1..])
  }

  /** `strip()` applied to every string of `xs`. */
  function StripEach(xs: seq<string>): (r: seq<string>)
    ensures |r| == |xs|
    ensures forall k :: 0 <= k < |r| ==> r[k] == Strip(xs[k])
  {
    if xs == [] then [] else [Strip(xs[0])] + StripEach(xs[1..])
  }

  /** Every piece of `line.split(sep)` for every line of `xs`, in order. */
  function SplitEach(xs: seq<string>, sep: string): (r: seq<string>)
    requires sep != []
    ensures forall k :: 0 <= k < |r| ==> !Contains(r[k], sep)
    ensures (forall k :: 0 <= k < |xs| ==> NoBreak(xs[k])) ==>
              forall k :: 0 <= k < |r| ==> NoBreak(r[k])
    ensures Join(sep, r) == Join(sep, xs)
    ensures r == [] <==> xs == []
  {
    if xs == [] then []
    else
      var head := Split(xs[0], sep);
      var tail := SplitEach(xs[1..], sep);
      SplitKeepsNoBreak(xs[0], sep);
      JoinStep(sep, xs[0], xs[1..], head, tail);
      assert [xs[0]] + xs[1..] == xs;
      head + tail
  }

  /** Replacing the first string by pieces that join back to it, and the
      rest by strings that join to the same text, keeps the joined text. */
  lemma JoinStep(sep: string, x: string, rest: seq<string>, head: seq<string>, tail: seq<string>)
    requires head != [] && Join(sep, head) == x
    requires Join(sep, tail) == Join(sep, rest) && (tail == [] <==> rest == [])
    ensures Join(sep, head + tail) == Join(sep, [x] + rest)
  {
    if tail != [] {
      calc {
        Join(sep, head + tail);
        { JoinAppend(sep, head, tail); }
        x + sep + Join(sep, rest);
        { JoinAppend(sep, [x], rest); }
        Join(sep, [x] + rest);
      }
    } else {
      assert head + tail == head;
      assert [x] + rest == [x];
    }
  }

  /** A single line gives exactly its own `split` pieces. */
  lemma SplitEachOne(x: string, sep: string)
    requires sep != []
    ensures SplitEach([x], sep) == Split(x, sep)
  {
    assert [x][1..] == [];
    assert SplitEach([x][1..], sep) == [];
  }

  /** The lines are split one by one: the pieces of two runs of lines are
      the pieces of the first followed by those of the second. */
  lemma {:induction false} SplitEachAppend(a: seq<string>, b: seq<string>, sep: string)
    requires sep != []
    ensures SplitEach(a + b, sep) == SplitEach(a, sep) + SplitEach(b, sep)
    decreases |a|
  {
    if a == [] {
      assert a + b == b;
    } else {
      var head := Split(a[0], sep);
      assert SplitEach(a + b, sep) == head + SplitEach(a[1..] + b, sep) by {
        assert (a + b)[0] == a[0] && (a + b)[1..] == a[1..] + b;
      }
      SplitEachAppend(a[1..], b, sep);
      assert head + (SplitEach(a[1..], sep) + SplitEach(b, sep))
          == (head + SplitEach(a[1..], sep)) + SplitEach(b, sep);
    }
  }

  /** Three spaces split on two give `""` and `" "`: the separator is taken
      at the leftmost position, not at the end of the run. */
  lemma SplitThreeSpaces()
    ensures Split("   ", DoubleSpace) == ["", " "]
  {
    var r := ["", " "];
    assert !Contains(" ", DoubleSpace);
    assert !Contains("" + DoubleSpace[..1], DoubleSpace);
    assert Join(DoubleSpace, r) == "   " by {
      assert r[1..] == [" "];
    }
    SplitUnique("   ", DoubleSpace, r);
  }

  /** The pieces of a single-line string are single-line. */
  lemma SplitKeepsNoBreak(x: string, sep: string)
    requires sep != []
    ensures NoBreak(x) ==> forall k :: 0 <= k < |Split(x, sep)| ==> NoBreak(Split(x, sep)[k])
  {
    var pieces := Split(x, sep);
    forall k | 0 <= k < |pieces| && NoBreak(x)
      ensures NoBreak(pieces[k])
    {
      JoinHasParts(sep, pieces, k);
      NoBreakInfix(x, pieces[k]);
    }
  }

  /** The non-empty strings of `xs`, in order. */
  function NonEmpty(xs: seq<string>): (r: seq<string>)
    ensures forall k :: 0 <= k < |r| ==> r[k] != [] && r[k] in xs
    ensures forall x :: x in xs && x != [] ==> x in r
    ensures Concat(r) == Concat(xs)
  {
    if xs == [] then []
    else
      var rest := NonEmpty(xs[1..]);
      if xs[0] == [] then
        rest
      else
        assert ([xs[0]] + rest)[1..] == rest;
        [xs[0]] + rest
  }

  /** The filter keeps a single string exactly when it is non-empty. */
  lemma NonEmptyOne(x: string)
    ensures NonEmpty([x]) == if x == [] then [] else [x]
  {
    assert [x][1..] == [];
  }

  /** The filter keeps the order: filtering two runs of strings gives the
      kept strings of the first followed by those of the second. */
  lemma {:induction false} NonEmptyAppend(a: seq<string>, b: seq<string>)
    ensures NonEmpty(a + b) == NonEmpty(a) + NonEmpty(b)
    decreases |a|
  {
    if a == [] {
      assert a + b == b;
    } else {
      assert (a + b)[1..] == a[1..] + b;
      NonEmptyAppend(a[1..], b);
    }
  }

  /** A chunk of the cleaned text: non-empty, stripped, single-line and free
      of two consecutive spaces. */
  predicate IsChunk(c: string) {
    c != [] && Stripped(c) && NoBreak(c) && !Contains(c, DoubleSpace)
  }

  /** What cleaned text looks like: no whitespace at either end, no line
      boundary, and never two spaces in a row. */
  predicate Canonical(t: string) {
    Stripped(t) && NoBreak(t) && !Contains(t, DoubleSpace)
  }

  /** The lines of app.py line 55: `splitlines()`, each stripped. */
  function Lines(text: string): (r: seq<string>)
    ensures forall k :: 0 <= k < |r| ==> NoBreak(r[k])
  {
    StripEachKeeps(SplitLines(text));
    StripEach(SplitLines(text))
  }

  /** The phrases of app.py line 56: every line split on two spaces, each
      piece stripped. */
  function Phrases(text: string): (r: seq<string>)
    ensures forall k :: 0 <= k < |r| ==>
      Stripped(r[k]) && NoBreak(r[k]) && !Contains(r[k], DoubleSpace)
  {
    var pieces := SplitEach(Lines(text), DoubleSpace);
    StripEachKeeps(pieces);
    StripEach(pieces)
  }

  /** The chunks the filter of app.py line 57 keeps: the non-empty phrases. */
  function Chunks(text: string): (r: seq<string>)
    ensures forall k :: 0 <= k < |r| ==> IsChunk(r[k])
  {
    NonEmpty(Phrases(text))
  }

  /** The cleanup expression of app.py lines 55-57: the chunks joined by one
      space. The result is canonical. */
  function Clean(text: string): (r: string)
    ensures Canonical(r)
  {
    var cs := Chunks(text);
    JoinChunksCanonical(cs);
    Join(OneSpace, cs)
  }

  // --------------------------------------------------------- properties

  /** Canonical text is left exactly as it is. */
  lemma CleanFixesCanonical(t: string)
    requires Canonical(t)
    ensures Clean(t) == t
  {
    if t != [] {
      assert FindBreak(t) == |t|;
      assert t[..|t|] == t;
      assert SplitLinesKeepEnds(t) == [Line(t, [])];
      assert SplitLines(t) == [t];
      assert t[0..|t|] == t;
      StripUnique(t, t, 0);
      assert Lines(t) == [t];
      assert Find(t, DoubleSpace) == None;
      assert Split(t, DoubleSpace) == [t];
      assert SplitEach([t], DoubleSpace) == Split(t, DoubleSpace) + SplitEach([], DoubleSpace);
      assert Phrases(t) == [t];
      assert Chunks(t) == [t];
    }
  }

  /** Cleaning cleaned text changes nothing. */
  lemma CleanIdempotent(text: string)
    ensures Clean(Clean(text)) == Clean(text)
  {
    CleanFixesCanonical(Clean(text));
  }

  /** The cleanup only removes or replaces whitespace: the non-whitespace
      characters of the result are those of the input, in the same order. */
  lemma CleanKeepsNonSpace(text: string)
    ensures NonSpace(Clean(text)) == NonSpace(text)
  {
    calc {
      NonSpace(Clean(text));
      { NonSpaceJoin(OneSpace, Chunks(text)); }
      NonSpace(Concat(Chunks(text)));
      NonSpace(Concat(Phrases(text)));
      { NonSpacePhrases(text); }
      NonSpace(Concat(Lines(text)));
      { NonSpaceLines(text); }
      NonSpace(text);
    }
  }

  lemma NonSpaceLines(text: string)
    ensures NonSpace(Concat(Lines(text))) == NonSpace(text)
  {
    NonSpaceStripEach(SplitLines(text));
    NonSpaceSplitLines(text);
  }

  lemma NonSpacePhrases(text: string)
    ensures NonSpace(Concat(Phrases(text))) == NonSpace(Concat(Lines(text)))
  {
    var pieces := SplitEach(Lines(text), DoubleSpace);
    calc {
      NonSpace(Concat(Phrases(text)));
      NonSpace(Concat(StripEach(pieces)));
      { NonSpaceStripEach(pieces); }
      NonSpace(Concat(pieces));
      { NonSpaceSplitEach(Lines(text), DoubleSpace); }
      NonSpace(Concat(Lines(text)));
    }
  }

  /** Splitting on a whitespace separator only drops whitespace. */
  lemma NonSpaceSplitEach(xs: seq<string>, sep: string)
    requires sep != [] && AllSpace(sep)
    ensures NonSpace(Concat(SplitEach(xs, sep))) == NonSpace(Concat(xs))
  {
    NonSpaceJoin(sep, SplitEach(xs, sep));
    NonSpaceJoin(sep, xs);
  }

  /** The result is empty exactly when the input is all whitespace. */
  lemma CleanEmptyIffAllSpace(text: string)
    ensures Clean(text) == [] <==> AllSpace(text)
  {
    var r := Clean(text);
    CleanKeepsNonSpace(text);
    if r != [] {
      assert !IsSpace(r[0]);
    }
  }

  // ------------------------------------------------------------ helpers

  /** Stripping keeps a string single-line and free of two spaces in a row. */
  lemma StripEachKeeps(xs: seq<string>)
    ensures forall k :: 0 <= k < |xs| && NoBreak(xs[k]) ==> NoBreak(StripEach(xs)[k])
    ensures forall k :: 0 <= k < |xs| && !Contains(xs[k], DoubleSpace) ==>
      !Contains(StripEach(xs)[k], DoubleSpace)
  {
    forall k | 0 <= k < |xs|
      ensures NoBreak(xs[k]) ==> NoBreak(Strip(xs[k]))
      ensures !Contains(xs[k], DoubleSpace) ==> !Contains(Strip(xs[k]), DoubleSpace)
    {
      StripKeepsInfix(xs[k]);
      if NoBreak(xs[k]) {
        NoBreakInfix(xs[k], Strip(xs[k]));
      }
      if Contains(Strip(xs[k]), DoubleSpace) {
        ContainsTrans(xs[k], Strip(xs[k]), DoubleSpace);
      }
    }
  }

  lemma JoinAppend(sep: string, a: seq<string>, b: seq<string>)
    requires a != [] && b != []
    ensures Join(sep, a + b) == Join(sep, a) + sep + Join(sep, b)
    decreases |a|
  {
    if |a| == 1 {
      assert (a + b)[1..] == b;
    } else {
      assert (a + b)[1..] == a[1..] + b;
      JoinAppend(sep, a[1..], b);
    }
  }

  /** Concatenation is joining with the empty separator. */
  lemma {:induction false} ConcatIsJoin(xs: seq<string>)
    ensures Concat(xs) == Join([], xs)
    decreases |xs|
  {
    if |xs| == 1 {
      assert xs[1..] == [];
    } else if |xs| > 1 {
      ConcatIsJoin(xs[1..]);
    }
  }

  /** Each part is an infix of the joined string. */
  lemma {:induction false} JoinHasParts(sep: string, xs: seq<string>, k: int)
    requires 0 <= k < |xs|
    ensures Contains(Join(sep, xs), xs[k])
    decreases |xs|
  {
    var j := Join(sep, xs);
    if |xs| == 1 {
      assert OccursAt(j, xs[k], 0);
    } else if k == 0 {
      assert j[..|xs[0]|] == xs[0];
      assert OccursAt(j, xs[k], 0);
    } else {
      JoinHasParts(sep, xs[1..], k - 1);
      var rest := Join(sep, xs[1..]);
      assert OccursAt(j, rest, |xs[0]| + |sep|);
      ContainsTrans(j, rest, xs[k]);
    }
  }

  lemma NoBreakInfix(s: string, t: string)
    requires NoBreak(s) && Contains(s, t)
    ensures NoBreak(t)
  {
    var i :| 0 <= i <= |s| - |t| && OccursAt(s, t, i);
    forall k | 0 <= k < |t|
      ensures !IsLineBreak(t[k])
    {
      assert t[k] == s[i..i + |t|][k];
    }
  }

  lemma StripKeepsInfix(s: string)
    ensures Contains(s, Strip(s))
  {
    var i :| Trims(s, Strip(s), i);
    assert OccursAt(s, Strip(s), i);
  }

  /** Two spaces in a row, located by index. */
  lemma DoubleSpaceAt(s: string)
    ensures Contains(s, DoubleSpace) <==>
      exists i :: 0 <= i < |s| - 1 && s[i] == ' ' && s[i + 1] == ' '
  {
    if Contains(s, DoubleSpace) {
      var i :| 0 <= i <= |s| - 2 && OccursAt(s, DoubleSpace, i);
      assert s[i..i + 2][0] == s[i] && s[i..i + 2][1] == s[i + 1];
    }
    if exists i :: 0 <= i < |s| - 1 && s[i] == ' ' && s[i + 1] == ' ' {
      var i :| 0 <= i < |s| - 1 && s[i] == ' ' && s[i + 1] == ' ';
      assert s[i..i + 2] == DoubleSpace;
      assert OccursAt(s, DoubleSpace, i);
    }
  }

  /** Joining a chunk to canonical text with one space keeps it canonical. */
  lemma ChunkThenCanonical(c: string, t: string)
    requires IsChunk(c) && Canonical(t) && t != []
    ensures Canonical(c + OneSpace + t)
  {
    var u := c + OneSpace + t;
    LineBreakIsSpace(' ');
    DoubleSpaceAt(c);
    DoubleSpaceAt(t);
    DoubleSpaceAt(u);
    forall i | 0 <= i < |u| - 1
      ensures !(u[i] == ' ' && u[i + 1] == ' ')
    {
      if i + 1 < |c| {
        assert u[i] == c[i] && u[i + 1] == c[i + 1];
      } else if i + 1 == |c| {
        assert u[i] == c[|c| - 1];
      } else if i == |c| {
        assert u[i + 1] == t[0];
      } else {
        assert u[i] == t[i - |c| - 1] && u[i + 1] == t[i - |c|];
      }
    }
    forall i | 0 <= i < |u|
      ensures !IsLineBreak(u[i])
    {
      if i < |c| {
        assert u[i] == c[i];
      } else if i > |c| {
        assert u[i] == t[i - |c| - 1];
      }
    }
  }

  lemma {:induction false} JoinChunksCanonical(cs: seq<string>)
    requires forall k :: 0 <= k < |cs| ==> IsChunk(cs[k])
    ensures Canonical(Join(OneSpace, cs))
    ensures Join(OneSpace, cs) == [] <==> cs == []
    decreases |cs|
  {
    if |cs| == 0 {
      DoubleSpaceAt([]);
    } else if |cs| == 1 {
    } else {
      JoinChunksCanonical(cs[1..]);
      ChunkThenCanonical(cs[0], Join(OneSpace, cs[1..]));
    }
  }

  lemma ConcatCons(x: string, xs: seq<string>)
    ensures Concat([x] + xs) == x + Concat(xs)
  {
    assert ([x] + xs)[1..] == xs;
  }

  /** Whitespace separators vanish from the non-whitespace projection. */
  lemma {:induction false} NonSpaceJoin(sep: string, xs: seq<string>)
    requires AllSpace(sep)
    ensures NonSpace(Join(sep, xs)) == NonSpace(Concat(xs))
    decreases |xs|
  {
    if |xs| == 1 {
      assert xs[1..] == [];
      assert Concat(xs) == xs[0] + [] == xs[0];
    } else if |xs| > 1 {
      NonSpaceJoin(sep, xs[1..]);
      NonSpaceAppend(xs[0] + sep, Join(sep, xs[1..]));
      NonSpaceAppend(xs[0], sep);
      NonSpaceAppend(xs[0], Concat(xs[1..]));
    }
  }

  lemma NonSpaceStrip(s: string)
    ensures NonSpace(Strip(s)) == NonSpace(s)
  {
    var r := Strip(s);
    var i :| Trims(s, r, i);
    NonSpaceAround(s, r, i);
  }

  lemma NonSpaceAround(s: string, r: string, i: int)
    requires Trims(s, r, i)
    ensures NonSpace(r) == NonSpace(s)
  {
    var pre, post := s[..i], s[i + |r|..];
    assert s == pre + r + post;
    assert AllSpace(pre);
    assert forall k :: 0 <= k < |post| ==> post[k] == s[i + |r| + k];
    assert NonSpace(pre) == [] && NonSpace(post) == [];
    NonSpaceAppend(pre + r, post);
    NonSpaceAppend(pre, r);
  }

  lemma {:induction false} NonSpaceStripEach(xs: seq<string>)
    ensures NonSpace(Concat(StripEach(xs))) == NonSpace(Concat(xs))
    decreases |xs|
  {
    if xs != [] {
      var x, rest := xs[0], xs[1..];
      calc {
        NonSpace(Concat(StripEach(xs)));
        { ConcatCons(Strip(x), StripEach(rest)); }
        NonSpace(Strip(x) + Concat(StripEach(rest)));
        { NonSpaceAppend(Strip(x), Concat(StripEach(rest))); }
        NonSpace(Strip(x)) + NonSpace(Concat(StripEach(rest)));
        { NonSpaceStrip(x); NonSpaceStripEach(rest); }
        NonSpace(x) + NonSpace(Concat(rest));
        { NonSpaceAppend(x, Concat(rest)); }
        NonSpace(x + Concat(rest));
      }
    }
  }

  lemma LineEndingIsSpace(e: string)
    requires IsLineEnding(e)
    ensures AllSpace(e)
  {
    if |e| == 1 {
      LineBreakIsSpace(e[0]);
    }
  }

  /** Dropping the terminators only drops whitespace. */
  lemma {:induction false} NonSpaceTexts(ls: seq<Line>)
    requires forall k :: 0 <= k < |ls| ==> IsLineEnding(ls[k].ending)
    ensures NonSpace(Concat(Texts(ls))) == NonSpace(Flatten(ls))
    decreases |ls|
  {
    if ls != [] {
      var l, rest := ls[0], ls[1..];
      LineEndingIsSpace(l.ending);
      calc {
        NonSpace(Concat(Texts(ls)));
        { ConcatCons(l.text, Texts(rest)); }
        NonSpace(l.text + Concat(Texts(rest)));
        { NonSpaceAppend(l.text, Concat(Texts(rest))); }
        NonSpace(l.text) + NonSpace(Concat(Texts(rest)));
        { NonSpaceTexts(rest); }
        NonSpace(l.text) + NonSpace(Flatten(rest));
        { NonSpaceAppend(l.text, l.ending); }
        NonSpace(l.text + l.ending) + NonSpace(Flatten(rest));
        { NonSpaceAppend(l.Raw(), Flatten(rest)); }
        NonSpace(Flatten(ls));
      }
    }
  }

  lemma NonSpaceSplitLines(s: string)
    ensures NonSpace(Concat(SplitLines(s))) == NonSpace(s)
  {
    NonSpaceTexts(SplitLinesKeepEnds(s));
  }
}
