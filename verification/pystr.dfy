/** The Python 3 `str` operations the cleanup expression is built from:
    `strip()`, `split(sep)`, `sep.join(xs)` and `splitlines()`, each with a
    specification that does not depend on how it is computed. */
module PyStr {
  import opened Chars

  datatype Option<T> = None | Some(value: T)

  /** `t` occurs in `s` starting at index `i`. */
  predicate OccursAt(s: string, t: string, i: int) {
    0 <= i && i + |t| <= |s| && s[i..i + |t|] == t
  }

  /** Python's `t in s`. */
  predicate Contains(s: string, t: string) {
    exists i | 0 <= i <= |s| - |t| :: OccursAt(s, t, i)
  }

  /** An occurrence inside an infix is an occurrence in the whole string. */
  lemma ContainsTrans(s: string, m: string, t: string)
    requires Contains(s, m) && Contains(m, t)
    ensures Contains(s, t)
  {
    var i :| 0 <= i <= |s| - |m| && OccursAt(s, m, i);
    var j :| 0 <= j <= |m| - |t| && OccursAt(m, t, j);
    forall k | 0 <= k < |t|
      ensures s[i + j..i + j + |t|][k] == t[k]
    {
      calc {
        t[k];
        m[j..j + |t|][k];
        m[j + k];
        s[i..i + |m|][j + k];
        s[i + j + k];
      }
    }
    assert OccursAt(s, t, i + j);
  }

  // ---------------------------------------------------------------- strip

  /** Neither end of `s` is whitespace (vacuously true of ""). */
  predicate Stripped(s: string) {
    s == [] || (!IsSpace(s[0]) && !IsSpace(s[|s| - 1]))
  }

  /** The first index at or after `i` that does not hold whitespace
      (`|s|` when there is none). */
  function SkipSpace(s: string, i: nat): (j: nat)
    requires i <= |s|
    ensures i <= j <= |s|
    ensures forall k :: i <= k < j ==> IsSpace(s[k])
    ensures j < |s| ==> !IsSpace(s[j])
    decreases |s| - i
  {
    if i < |s| && IsSpace(s[i]) then SkipSpace(s, i + 1) else i
  }

  /** The end of `s[lo..j]` once its trailing whitespace is dropped. */
  function SkipSpaceBack(s: string, lo: nat, j: nat): (e: nat)
    requires lo <= j <= |s|
    ensures lo <= e <= j
    ensures forall k :: e <= k < j ==> IsSpace(s[k])
    ensures lo < e ==> !IsSpace(s[e - 1])
    decreases j - lo
  {
    if lo < j && IsSpace(s[j - 1]) then SkipSpaceBack(s, lo, j - 1) else j
  }

  /** `r` is `s` less a whitespace-only prefix of length `i` and a
      whitespace-only suffix. */
  predicate Trims(s: string, r: string, i: int) {
    && 0 <= i && i + |r| <= |s|
    && s[i..i + |r|] == r
    && (forall k :: 0 <= k < i ==> IsSpace(s[k]))
    && (forall k :: i + |r| <= k < |s| ==> IsSpace(s[k]))
  }

  /** Python's `s.strip()`: skip whitespace from the left, then from the
      right, and keep what lies between. */
  function Strip(s: string): (r: string)
    ensures Stripped(r)
    ensures exists i :: Trims(s, r, i)
    ensures r == [] <==> AllSpace(s)
  {
    var lo := SkipSpace(s, 0);
    var hi := SkipSpaceBack(s, lo, |s|);
    var r := s[lo..hi];
    assert Trims(s, r, lo);
    assert lo < hi ==> r[0] == s[lo] && r[|r| - 1] == s[hi - 1];
    r
  }

  /** The specification of `Strip` has exactly one solution: any stripped
      infix obtained by removing whitespace from both ends is `Strip(s)`. */
  lemma StripUnique(s: string, r: string, i: int)
    requires Stripped(r) && Trims(s, r, i)
    ensures Strip(s) == r
  {
    if r == [] {
      assert AllSpace(s) by {
        forall k | 0 <= k < |s|
          ensures IsSpace(s[k])
        {
          if k >= i {
            assert k >= i + |r|;
          }
        }
      }
    } else {
      var lo := SkipSpace(s, 0);
      var e := i + |r|;
      assert s[i] == r[0] && s[e - 1] == r[|r| - 1];
      assert lo == i;
      var hi := SkipSpaceBack(s, lo, |s|);
      assert hi == e;
    }
  }

  // ---------------------------------------------------------- find, split

  /** Occurrences after the first character are the occurrences in `s[1..]`, shifted by one. */
  lemma OccursShift(s: string, t: string)
    requires s != []
    ensures forall j :: 1 <= j ==> (OccursAt(s, t, j) <==> OccursAt(s[1..], t, j - 1))
  {
    forall j | 1 <= j
      ensures OccursAt(s, t, j) <==> OccursAt(s[1..], t, j - 1)
    {
      if j + |t| <= |s| {
        assert s[1..][j - 1..j - 1 + |t|] == s[j..j + |t|];
      }
    }
  }

  /** Python's `s.find(sep)` for a non-empty `sep`: the leftmost occurrence. */
  function Find(s: string, sep: string): (r: Option<nat>)
    requires sep != []
    ensures r.Some? ==> OccursAt(s, sep, r.value)
    ensures r.Some? ==> forall j :: 0 <= j < r.value ==> !OccursAt(s, sep, j)
    ensures r.None? <==> !Contains(s, sep)
    decreases |s|
  {
    if |s| < |sep| then None
    else if s[..|sep|] == sep then Some(0)
    else
      OccursShift(s, sep);
      match Find(s[1..], sep)
      case None => None
      case Some(k) => Some(k + 1)
  }

  /** No occurrence starts before `i`, so the prefix of length `i` holds none. */
  lemma NoOccurrenceInPrefix(s: string, t: string, i: int)
    requires t != [] && 0 <= i <= |s|
    requires forall j :: 0 <= j < i ==> !OccursAt(s, t, j)
    ensures !Contains(s[..i], t)
  {
    forall j | 0 <= j <= i - |t|
      ensures !OccursAt(s[..i], t, j)
    {
      assert s[..i][j..j + |t|] == s[j..j + |t|];
      assert !OccursAt(s, t, j);
    }
  }

  /** When the first occurrence of `t` starts at `i`, no occurrence fits in
      the text before it followed by all but the last character of `t`. */
  lemma NoOccurrenceStraddles(s: string, t: string, i: int)
    requires t != [] && OccursAt(s, t, i)
    requires forall j :: 0 <= j < i ==> !OccursAt(s, t, j)
    ensures !Contains(s[..i] + t[..|t| - 1], t)
  {
    var m := i + |t| - 1;
    assert s[..i] + t[..|t| - 1] == s[..m] by {
      assert t[..|t| - 1] == s[i..m];
    }
    forall j | 0 <= j <= m - |t|
      ensures !OccursAt(s[..m], t, j)
    {
      assert s[..m][j..j + |t|] == s[j..j + |t|];
      assert !OccursAt(s, t, j);
    }
  }

  /** Python's `sep.join(xs)`. */
  function Join(sep: string, xs: seq<string>): string {
    if |xs| == 0 then []
    else if |xs| == 1 then xs[0]
    else xs[0] + sep + Join(sep, xs[1..])
  }

  /** Python's `s.split(sep)` for a non-empty `sep`: the pieces between the
      leftmost non-overlapping occurrences of `sep`. Joining the pieces with
      `sep` gives `s` back, and each separator is the first occurrence after
      the piece before it: no occurrence starts inside that piece. */
  function Split(s: string, sep: string): (r: seq<string>)
    requires sep != []
    ensures r != []
    ensures forall k :: 0 <= k < |r| ==> !Contains(r[k], sep)
    ensures forall k :: 0 <= k < |r| - 1 ==> !Contains(r[k] + sep[..|sep| - 1], sep)
    ensures Join(sep, r) == s
    decreases |s|
  {
    match Find(s, sep)
    case None => [s]
    case Some(i) =>
      var rest := Split(s[i + |sep|..], sep);
      SplitStep(s, sep, i, rest);
      [s[..i]] + rest
  }

  /** One step of `Split`: the text before the first occurrence of `sep`,
      put in front of the pieces of the text after it, meets the
      specification of `Split` for the whole string. */
  lemma SplitStep(s: string, sep: string, i: nat, rest: seq<string>)
    requires sep != [] && Find(s, sep) == Some(i)
    requires rest != [] && Join(sep, rest) == s[i + |sep|..]
    requires forall k :: 0 <= k < |rest| ==> !Contains(rest[k], sep)
    requires forall k :: 0 <= k < |rest| - 1 ==> !Contains(rest[k] + sep[..|sep| - 1], sep)
    ensures forall k :: 0 <= k < |[s[..i]] + rest| ==> !Contains(([s[..i]] + rest)[k], sep)
    ensures forall k :: 0 <= k < |[s[..i]] + rest| - 1 ==>
      !Contains(([s[..i]] + rest)[k] + sep[..|sep| - 1], sep)
    ensures Join(sep, [s[..i]] + rest) == s
  {
    NoOccurrenceInPrefix(s, sep, i);
    NoOccurrenceStraddles(s, sep, i);
    var r := [s[..i]] + rest;
    assert r[1..] == rest;
    assert forall k :: 1 <= k < |r| ==> r[k] == rest[k - 1];
    assert s == s[..i] + sep + s[i + |sep|..];
  }

  /** When `p` holds no occurrence of `sep`, not even one running into a
      following `sep`, the first occurrence in `p + sep + rest` is the one
      right after `p`. */
  lemma FindAfterPiece(p: string, sep: string, rest: string)
    requires sep != [] && !Contains(p + sep[..|sep| - 1], sep)
    ensures Find(p + sep + rest, sep) == Some(|p|)
  {
    var s := p + sep + rest;
    var m := |p| + |sep| - 1;
    assert s[|p|..|p| + |sep|] == sep;
    assert OccursAt(s, sep, |p|);
    var f := Find(s, sep);
    assert s[..m] == p + sep[..|sep| - 1];
    forall j | 0 <= j < |p|
      ensures !OccursAt(s, sep, j)
    {
      assert !OccursAt(s[..m], sep, j);
      assert s[..m][j..j + |sep|] == s[j..j + |sep|];
    }
  }

  /** The specification of `Split` has exactly one solution: pieces free of
      `sep` that join back to `s`, where no occurrence starts inside a piece
      and runs into the separator after it, are `Split(s, sep)`. */
  lemma {:induction false} SplitUnique(s: string, sep: string, r: seq<string>)
    requires sep != [] && r != []
    requires forall k :: 0 <= k < |r| ==> !Contains(r[k], sep)
    requires forall k :: 0 <= k < |r| - 1 ==> !Contains(r[k] + sep[..|sep| - 1], sep)
    requires Join(sep, r) == s
    ensures Split(s, sep) == r
    decreases |r|
  {
    if |r| == 1 {
      assert s == r[0];
      assert Find(s, sep).None?;
    } else {
      var p := r[0];
      var tail := r[1..];
      var rest := Join(sep, tail);
      assert s == p + sep + rest;
      FindAfterPiece(p, sep, rest);
      assert s[..|p|] == p && s[|p| + |sep|..] == rest;
      assert forall k :: 0 <= k < |tail| ==> tail[k] == r[k + 1];
      SplitUnique(rest, sep, tail);
      assert r == [p] + tail;
    }
  }

  // ----------------------------------------------------------- splitlines

  /** One line as `str.splitlines(keepends=True)` yields it, cut into its
      text and the terminator that ended it ("" for a final unterminated line). */
  datatype Line = Line(text: string, ending: string) {
    function Raw(): string {
      text + ending
    }
  }

  /** A terminator: one line-boundary character, the pair "\r\n", or none. */
  predicate IsLineEnding(e: string) {
    e == [] || (|e| == 1 && IsLineBreak(e[0])) || e == "\r\n"
  }

  function Flatten(ls: seq<Line>): string {
    if ls == [] then [] else ls[0].Raw() + Flatten(ls[1..])
  }

  /** Index of the first line boundary in `s`, or `|s|` when there is none. */
  function FindBreak(s: string): (r: nat)
    ensures r <= |s|
    ensures NoBreak(s[..r])
    ensures r < |s| ==> IsLineBreak(s[r])
    decreases |s|
  {
    if s == [] || IsLineBreak(s[0]) then 0 else 1 + FindBreak(s[1..])
  }

  /** The shape `str.splitlines(keepends=True)` gives its lines: every text
      is free of boundaries, every line but the last is terminated, no line is
      empty (so there is no trailing empty line), and a lone "\r" terminator is
      never directly followed by "\n" (that pair is one terminator). */
  predicate LinesShape(r: seq<Line>) {
    && (forall k :: 0 <= k < |r| ==>
          NoBreak(r[k].text) && IsLineEnding(r[k].ending) && r[k].Raw() != [])
    && (forall k :: 0 <= k < |r| - 1 ==> r[k].ending != [])
    && (forall k :: 0 <= k < |r| - 1 && r[k].ending == "\r" ==> r[k + 1].Raw()[0] != '\n')
  }

  lemma FlattenCons(l: Line, rest: seq<Line>)
    ensures Flatten([l] + rest) == l.Raw() + Flatten(rest)
  {
    assert ([l] + rest)[1..] == rest;
  }

  lemma LinesShapeCons(l: Line, rest: seq<Line>)
    requires LinesShape(rest)
    requires NoBreak(l.text) && IsLineEnding(l.ending) && l.ending != []
    requires rest != [] && l.ending == "\r" ==> rest[0].Raw()[0] != '\n'
    ensures LinesShape([l] + rest)
  {
    var r := [l] + rest;
    forall k | 1 <= k < |r|
      ensures r[k] == rest[k - 1]
    {
    }
  }

  /** One step of the splitter: the line ending at the first boundary `i`,
      whose terminator has length `n`, put in front of the lines of the rest. */
  lemma SplitLinesStep(s: string, i: nat, n: nat, rest: seq<Line>)
    requires i < |s| && NoBreak(s[..i]) && IsLineBreak(s[i])
    requires n == (if s[i] == '\r' && i + 1 < |s| && s[i + 1] == '\n' then 2 else 1)
    requires Flatten(rest) == s[i + n..] && LinesShape(rest)
    ensures Flatten([Line(s[..i], s[i..i + n])] + rest) == s
    ensures LinesShape([Line(s[..i], s[i..i + n])] + rest)
  {
    var line := Line(s[..i], s[i..i + n]);
    FlattenCons(line, rest);
    assert s == s[..i] + s[i..i + n] + s[i + n..];
    assert IsLineEnding(line.ending);
    if rest != [] {
      FlattenCons(rest[0], rest[1..]);
      assert [rest[0]] + rest[1..] == rest;
      assert Flatten(rest)[0] == rest[0].Raw()[0];
    }
    LinesShapeCons(line, rest);
  }

  /** Python's `s.splitlines(keepends=True)`: lines of the right shape that
      concatenate back to `s`. */
  function SplitLinesKeepEnds(s: string): (r: seq<Line>)
    ensures Flatten(r) == s
    ensures LinesShape(r)
    decreases |s|
  {
    if s == [] then []
    else
      var i := FindBreak(s);
      if i == |s| then
        assert s[..i] == s;
        assert [Line(s, [])][1..] == [];
        [Line(s, [])]
      else
        var n := if s[i] == '\r' && i + 1 < |s| && s[i + 1] == '\n' then 2 else 1;
        var rest := SplitLinesKeepEnds(s[i + n..]);
        SplitLinesStep(s, i, n, rest);
        [Line(s[..i], s[i..i + n])] + rest
  }

  /** The texts of a sequence of lines, terminators dropped. */
  function Texts(ls: seq<Line>): (r: seq<string>)
    ensures |r| == |ls|
    ensures forall k :: 0 <= k < |r| ==> r[k] == ls[k].text
  {
    if ls == [] then [] else [ls[0].text] + Texts(ls[1..])
  }

  /** Python's `s.splitlines()`: the keep-ends lines without their terminators.
      No line contains a boundary, and only "" has no lines. */
  function SplitLines(s: string): (r: seq<string>)
    ensures forall k :: 0 <= k < |r| ==> NoBreak(r[k])
    ensures r == [] <==> s == []
  {
    Texts(SplitLinesKeepEnds(s))
  }
}
