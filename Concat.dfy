/**
 * concatDefinitions: the fragments of the template joined in order, with the
 * matches of `/^\s+$(?:\e\n?|\n)/gm` deleted.
 *
 * With the `m` flag `^` holds at the start of the text and after a line
 * terminator, and `$` at the end and before one. `\e` is an identity escape
 * for the letter `e`. With the `g` flag `replace` deletes every match and
 * resumes the search where the previous match ended.
 */
module Concat {
  import opened Wrappers
  import opened JsText

  /** `join('')`: the fragments, in order, with nothing between them. */
  function Join(fragments: seq<string>): string {
    if |fragments| == 0 then [] else fragments[0] + Join(fragments[1..])
  }

  /** Multiline `^` holds at `p`. */
  predicate LineStart(s: string, p: nat)
    requires p <= |s|
  {
    p == 0 || IsLineTerminator(s[p - 1])
  }

  // ---------------------------------------------------------------------------
  // One match of `^\s+$(?:\e\n?|\n)`

  /** The pattern matches `s[p..e]` with `\s+` taking `s[p..j]`. */
  ghost predicate BlankLineSplit(s: string, p: nat, j: nat, e: nat) {
    p < j <= |s| && LineStart(s, p)
    && (forall y :: p <= y < j ==> IsSpace(s[y]))
    && (j == |s| || IsLineTerminator(s[j]))
    && ((j < |s| && s[j] == 'e' && (e == j + 1 || (e == j + 2 && e <= |s| && s[j + 1] == '\n')))
        || (j < |s| && s[j] == '\n' && e == j + 1))
  }

  /** The last `\n` in `s[lo..hi]`. */
  function LastNewline(s: string, lo: nat, hi: nat): (r: Option<nat>)
    requires lo <= hi <= |s|
    ensures r.Some? ==> lo <= r.value < hi && s[r.value] == '\n'
    ensures forall y :: lo <= y < hi && s[y] == '\n' ==> r.Some? && y <= r.value
    decreases hi - lo
  {
    if hi == lo then None
    else if s[hi - 1] == '\n' then Some(hi - 1)
    else LastNewline(s, lo, hi - 1)
  }

  /** The end of the match at `p`, if the pattern matches there. `\s+` first
      takes the whole run of white space and gives characters back until `$`
      and a `\n` follow; the `\e` alternative would need the letter `e` where
      `$` has just seen a line terminator or the end, so it never matches.
      The match chosen is the one whose `\s+` is longest. */
  function BlankLineMatch(s: string, p: nat): (r: Option<nat>)
    requires p <= |s|
    ensures r.Some? ==> p + 1 < r.value <= |s| && s[r.value - 1] == '\n'
  {
    if p < |s| && LineStart(s, p) && IsSpace(s[p]) then
      var k := SkipSpace(s, p);
      match LastNewline(s, p + 1, k)
      case Some(j) => Some(j + 1)
      case None => None
    else None
  }

  /** What `BlankLineMatch` finds is a match of the pattern. */
  lemma BlankLineMatchMatches(s: string, p: nat)
    requires p <= |s|
    ensures BlankLineMatch(s, p).Some? ==>
              BlankLineSplit(s, p, BlankLineMatch(s, p).value - 1, BlankLineMatch(s, p).value)
  {
  }

  /** Every match of the pattern at `p` ends in a `\n`, and `BlankLineMatch`
      finds one, ending no earlier: the longest. */
  lemma BlankLineMatchIsLongest(s: string, p: nat)
    requires p <= |s|
    ensures forall j: nat, e: nat :: BlankLineSplit(s, p, j, e) ==>
              s[j] == '\n' && e == j + 1 && BlankLineMatch(s, p).Some? && e <= BlankLineMatch(s, p).value
  {
  }

  // ---------------------------------------------------------------------------
  // The global replacement

  /** `replace` with the `g` flag from position `p` on: a match is deleted and
      the search resumes at its end; elsewhere the character is kept. */
  function RemoveBlankLines(s: string, p: nat): (r: string)
    requires p <= |s|
    ensures |r| <= |s| - p
    decreases |s| - p
  {
    if p == |s| then []
    else match BlankLineMatch(s, p)
      case Some(e) => RemoveBlankLines(s, e)
      case None => [s[p]] + RemoveBlankLines(s, p + 1)
  }

  /** The source's concatDefinitions. */
  function ConcatDefinitions(fragments: seq<string>): string {
    RemoveBlankLines(Join(fragments), 0)
  }

  // ---------------------------------------------------------------------------
  // Only white space is deleted

  /** `r` is `t` with some white-space characters deleted. */
  ghost predicate DropsOnlySpace(r: string, t: string)
    decreases |t|
  {
    if |t| == 0 then r == []
    else (|r| > 0 && r[0] == t[0] && DropsOnlySpace(r[1..], t[1..]))
         || (IsSpace(t[0]) && DropsOnlySpace(r, t[1..]))
  }

  /** The characters of `s` that are not white space, in order. */
  function NonSpace(s: string): (r: string)
    ensures forall y :: 0 <= y < |r| ==> !IsSpace(r[y])
    ensures |r| <= |s|
  {
    if |s| == 0 then []
    else if IsSpace(s[0]) then NonSpace(s[1..])
    else [s[0]] + NonSpace(s[1..])
  }

  /** The non-white-space characters of each fragment, fragment after fragment. */
  function NonSpaceOfEach(fragments: seq<string>): string {
    if |fragments| == 0 then [] else NonSpace(fragments[0]) + NonSpaceOfEach(fragments[1..])
  }

  lemma {:induction false} DropSpacePrefix(r: string, t: string, k: nat)
    requires k <= |t| && (forall y :: 0 <= y < k ==> IsSpace(t[y])) && DropsOnlySpace(r, t[k..])
    ensures DropsOnlySpace(r, t)
    decreases k
  {
    if k > 0 {
      assert t[1..][k - 1..] == t[k..];
      DropSpacePrefix(r, t[1..], k - 1);
    }
  }

  /** The scan from `p` deletes only white space from `s[p..]`. */
  lemma {:induction false} RemovesOnlySpace(s: string, p: nat)
    requires p <= |s|
    ensures DropsOnlySpace(RemoveBlankLines(s, p), s[p..])
    decreases |s| - p
  {
    if p < |s| {
      match BlankLineMatch(s, p)
      case Some(e) =>
        BlankLineMatchMatches(s, p);
        RemovesOnlySpace(s, e);
        assert s[p..][e - p..] == s[e..];
        DropSpacePrefix(RemoveBlankLines(s, e), s[p..], e - p);
      case None =>
        RemovesOnlySpace(s, p + 1);
        var r := RemoveBlankLines(s, p);
        assert r[1..] == RemoveBlankLines(s, p + 1);
        assert s[p..][1..] == s[p + 1..];
    }
  }

  /** Deleting white space keeps every other character, in order. */
  lemma {:induction false} DropsOnlySpaceKeepsNonSpace(r: string, t: string)
    requires DropsOnlySpace(r, t)
    ensures NonSpace(r) == NonSpace(t)
    decreases |t|
  {
    if |t| > 0 {
      if |r| > 0 && r[0] == t[0] && DropsOnlySpace(r[1..], t[1..]) {
        DropsOnlySpaceKeepsNonSpace(r[1..], t[1..]);
      } else {
        DropsOnlySpaceKeepsNonSpace(r, t[1..]);
      }
    }
  }

  lemma {:induction false} NonSpaceOfConcat(a: string, b: string)
    ensures NonSpace(a + b) == NonSpace(a) + NonSpace(b)
    decreases |a|
  {
    if |a| == 0 {
      assert a + b == b;
    } else {
      assert (a + b)[0] == a[0] && (a + b)[1..] == a[1..] + b;
      NonSpaceOfConcat(a[1..], b);
    }
  }

  lemma {:induction false} NonSpaceOfJoin(fragments: seq<string>)
    ensures NonSpace(Join(fragments)) == NonSpaceOfEach(fragments)
    decreases |fragments|
  {
    if |fragments| > 0 {
      NonSpaceOfConcat(fragments[0], Join(fragments[1..]));
      NonSpaceOfJoin(fragments[1..]);
    }
  }

  /** concatDefinitions deletes only white space from the joined fragments,
      and keeps every other character of every fragment, in fragment order. */
  lemma ConcatKeepsContent(fragments: seq<string>)
    ensures DropsOnlySpace(ConcatDefinitions(fragments), Join(fragments))
    ensures NonSpace(ConcatDefinitions(fragments)) == NonSpaceOfEach(fragments)
  {
    var s := Join(fragments);
    RemovesOnlySpace(s, 0);
    assert s[0..] == s;
    DropsOnlySpaceKeepsNonSpace(ConcatDefinitions(fragments), s);
    NonSpaceOfJoin(fragments);
  }

  // ---------------------------------------------------------------------------
  // What happens to each kind of line

  /** Where the pattern does not match at `p`, the scan copies `s[p]`. */
  lemma CopiesOne(s: string, p: nat)
    requires p < |s| && BlankLineMatch(s, p).None?
    ensures RemoveBlankLines(s, p) == [s[p]] + RemoveBlankLines(s, p + 1)
  {
  }

  /** The pattern matches at no position of `s[from..to]`. */
  predicate Unmatched(s: string, from: nat, to: nat)
    requires to <= |s|
  {
    forall y :: from <= y < to ==> BlankLineMatch(s, y).None?
  }

  /** Where the pattern matches nowhere in `s[from..to]`, the scan copies it. */
  lemma {:induction false} CopiesUnmatched(s: string, from: nat, to: nat)
    requires from <= to <= |s|
    requires Unmatched(s, from, to)
    ensures RemoveBlankLines(s, from) == s[from..to] + RemoveBlankLines(s, to)
    decreases |s| - from
  {
    if from < to {
      CopiesUnmatched(s, from + 1, to);
      CopiesOne(s, from);
      SliceCons(s, from, to, RemoveBlankLines(s, to));
    }
  }

  /** `s[from..to]` is `s[from]` followed by `s[from + 1..to]`. */
  lemma SliceCons(s: string, from: nat, to: nat, x: string)
    requires from < to <= |s|
    ensures s[from..to] + x == [s[from]] + (s[from + 1..to] + x)
  {
    assert s[from..to] == [s[from]] + s[from + 1..to];
  }

  /** A match needs a line start and a `\n` inside its run of white space. */
  lemma MatchNeeds(s: string, p: nat)
    requires p <= |s|
    ensures BlankLineMatch(s, p).Some? ==>
              LineStart(s, p) && exists y :: p < y < |s| && s[y] == '\n' && y < SkipSpace(s, p)
  {
    if BlankLineMatch(s, p).Some? {
      BlankLineMatchMatches(s, p);
      var j := BlankLineMatch(s, p).value - 1;
      assert p < j && s[j] == '\n' && j < SkipSpace(s, p);
    }
  }

  /** A line holding something other than white space is kept whole, with its
      line terminator. */
  lemma ContentLineKept(s: string, p: nat, c: nat)
    requires p <= |s| && LineStart(s, p) && p <= c < LineEnd(s, p) && !IsSpace(s[c])
    requires LineEnd(s, p) < |s|
    ensures RemoveBlankLines(s, p) == s[p..LineEnd(s, p) + 1] + RemoveBlankLines(s, LineEnd(s, p) + 1)
  {
    NoMatchOnContentLine(s, p, c);
    CopiesUnmatched(s, p, LineEnd(s, p) + 1);
  }

  /** The pattern matches nowhere on a line holding something other than
      white space, up to and including its line terminator. */
  lemma NoMatchOnContentLine(s: string, p: nat, c: nat)
    requires p <= |s| && LineStart(s, p) && p <= c < LineEnd(s, p) && !IsSpace(s[c])
    requires LineEnd(s, p) < |s|
    ensures Unmatched(s, p, LineEnd(s, p) + 1)
  {
    forall y | p <= y < LineEnd(s, p) + 1
      ensures BlankLineMatch(s, y).None?
    {
      MatchNeeds(s, y);
      if y == p {
        assert SkipSpace(s, p) <= c;
      } else {
        assert !LineStart(s, y);
      }
    }
  }

  /** Text after which no `\n` occurs is kept as it is; in particular the
      indentation before the closing backtick. */
  lemma LastLineKept(s: string, p: nat)
    requires p <= |s| && forall y :: p <= y < |s| ==> s[y] != '\n'
    ensures RemoveBlankLines(s, p) == s[p..]
  {
    forall y | p <= y < |s|
      ensures BlankLineMatch(s, y).None?
    {
      MatchNeeds(s, y);
    }
    CopiesUnmatched(s, p, |s|);
  }

  /** An indented line holding only white space is deleted with its `\n`, and
      possibly with more white space after it. */
  lemma IndentedBlankLineDropped(s: string, p: nat, q: nat)
    requires p < q < |s| && LineStart(s, p) && s[q] == '\n'
    requires forall y :: p <= y < q ==> IsSpace(s[y]) && !IsLineTerminator(s[y])
    ensures BlankLineMatch(s, p).Some? && q + 1 <= BlankLineMatch(s, p).value
    ensures RemoveBlankLines(s, p) == RemoveBlankLines(s, BlankLineMatch(s, p).value)
  {
    BlankLineMatchesThrough(s, p, q);
    DeletesMatch(s, p);
  }

  /** A blank line at `p` whose `\n` is at `q` is matched through `q`. */
  lemma BlankLineMatchesThrough(s: string, p: nat, q: nat)
    requires p < q < |s| && LineStart(s, p) && s[q] == '\n'
    requires forall y :: p <= y < q ==> IsSpace(s[y])
    ensures BlankLineMatch(s, p).Some? && q + 1 <= BlankLineMatch(s, p).value
  {
    assert BlankLineSplit(s, p, q, q + 1);
    BlankLineMatchIsLongest(s, p);
  }

  /** A match is deleted and the scan resumes at its end. */
  lemma DeletesMatch(s: string, p: nat)
    requires p <= |s| && BlankLineMatch(s, p).Some?
    ensures RemoveBlankLines(s, p) == RemoveBlankLines(s, BlankLineMatch(s, p).value)
  {
  }

  /** The match ends right after `q` when the white space after `q` holds no `\n`. */
  lemma BlankLineMatchEnds(s: string, p: nat, q: nat)
    requires p < q < |s| && LineStart(s, p) && s[q] == '\n'
    requires forall y :: p <= y < q ==> IsSpace(s[y])
    requires forall y :: q < y < SkipSpace(s, q + 1) ==> s[y] != '\n'
    ensures BlankLineMatch(s, p) == Some(q + 1)
  {
    SkipSpaceAcross(s, p, q + 1);
    LastNewlineIs(s, p + 1, q, SkipSpace(s, q + 1));
  }

  /** White space from `p` to `q` does not change where the run ends. */
  lemma {:induction false} SkipSpaceAcross(s: string, p: nat, q: nat)
    requires p <= q <= |s| && forall y :: p <= y < q ==> IsSpace(s[y])
    ensures SkipSpace(s, p) == SkipSpace(s, q)
    decreases q - p
  {
    if p < q {
      SkipSpaceAcross(s, p + 1, q);
    }
  }

  /** The last `\n` in `s[lo..hi]` is at `q` when none follows it. */
  lemma LastNewlineIs(s: string, lo: nat, q: nat, hi: nat)
    requires lo <= q < hi <= |s| && s[q] == '\n' && forall y :: q < y < hi ==> s[y] != '\n'
    ensures LastNewline(s, lo, hi) == Some(q)
  {
  }

  /** When the white space after that line holds no `\n` (the next line has
      content, or is the last), exactly the line and its `\n` are deleted and
      the scan resumes at the next line's start. */
  lemma BlankLineDropped(s: string, p: nat, q: nat)
    requires p < q < |s| && LineStart(s, p) && s[q] == '\n'
    requires forall y :: p <= y < q ==> IsSpace(s[y]) && !IsLineTerminator(s[y])
    requires forall y :: q < y < SkipSpace(s, q + 1) ==> s[y] != '\n'
    ensures RemoveBlankLines(s, p) == RemoveBlankLines(s, q + 1)
  {
    BlankLineMatchEnds(s, p, q);
    DeletesMatch(s, p);
  }

  /** An empty line (a lone `\n` at a line start) followed by a line whose
      leading white space holds no `\n` is kept. */
  lemma EmptyLineKept(s: string, p: nat)
    requires p < |s| && LineStart(s, p) && s[p] == '\n'
    requires forall y :: p < y < SkipSpace(s, p + 1) ==> s[y] != '\n'
    ensures RemoveBlankLines(s, p) == "\n" + RemoveBlankLines(s, p + 1)
  {
    assert SkipSpace(s, p) == SkipSpace(s, p + 1);
  }

  /** Indentation: white space that stays on its line. */
  predicate Indentation(ind: string) {
    forall x :: 0 <= x < |ind| ==> IsSpace(ind[x]) && !IsLineTerminator(ind[x])
  }

  /** Where `a` and the rest sit when `s` continues at `p` with `a + b`. */
  lemma SuffixSplit(s: string, p: nat, a: string, b: string)
    requires p <= |s| && s[p..] == a + b
    ensures p + |a| <= |s| && s[p + |a|..] == b
    ensures forall y :: p <= y < p + |a| ==> s[y] == a[y - p]
  {
    forall y | p <= y < p + |a|
      ensures s[y] == a[y - p]
    {
      assert s[p..][y - p] == a[y - p];
    }
    assert s[p + |a|..] == s[p..][|a|..];
  }

  /** When `s` continues at `p` with indentation `ind` and then a non-space
      character, the white space from `p` ends after `ind`, with no `\n` in it. */
  lemma IndentLayout(s: string, p: nat, ind: string, rest: string)
    requires p <= |s| && s[p..] == ind + rest && Indentation(ind) && rest != [] && !IsSpace(rest[0])
    ensures SkipSpace(s, p) == p + |ind|
    ensures forall y :: p <= y < p + |ind| ==> IsSpace(s[y]) && !IsLineTerminator(s[y])
  {
    SuffixSplit(s, p, ind, rest);
    assert s[p + |ind|..][0] == rest[0];
  }

  /** An empty line at `p` is kept when the next line opens with indentation
      `ind` and then a non-space character. */
  lemma EmptyLineAt(s: string, p: nat, ind: string, rest: string)
    requires p <= |s| && LineStart(s, p) && s[p..] == "\n" + (ind + rest)
    requires Indentation(ind) && rest != [] && !IsSpace(rest[0])
    ensures p + 1 <= |s| && LineStart(s, p + 1) && s[p + 1..] == ind + rest
    ensures RemoveBlankLines(s, p) == "\n" + RemoveBlankLines(s, p + 1)
  {
    assert p < |s| && s[p] == '\n' && s[p + 1..] == ind + rest by {
      SuffixSplit(s, p, "\n", ind + rest);
    }
    assert SkipSpace(s, p + 1) == p + 1 + |ind|
           && forall y :: p < y < p + 1 + |ind| ==> s[y] != '\n' by {
      IndentLayout(s, p + 1, ind, rest);
    }
    EmptyLineKept(s, p);
  }

  /** Three `\n` in a row after `a` collapse to one. */
  lemma CollapsesBlankLines()
    ensures ConcatDefinitions(["a\n\n\n", "b\n"]) == "a\nb\n"
  {
    var s := Join(["a\n\n\n", "b\n"]);
    assert s == "a\n\n\nb\n" by {
      assert Join(["b\n"]) == "b\n" + Join([]);
    }
    CollapsedFirstLine(s);
    CollapsedBlankLines(s);
    CollapsedLastLine(s);
  }

  lemma CollapsedFirstLine(s: string)
    requires s == "a\n\n\nb\n"
    ensures RemoveBlankLines(s, 0) == "a\n" + RemoveBlankLines(s, 2)
  {
    assert LineEnd(s, 0) == 1;
    ContentLineKept(s, 0, 0);
    assert s[0..2] == "a\n";
  }

  lemma CollapsedBlankLines(s: string)
    requires s == "a\n\n\nb\n"
    ensures RemoveBlankLines(s, 2) == RemoveBlankLines(s, 4)
  {
    assert BlankLineSplit(s, 2, 3, 4);
    BlankLineMatchIsLongest(s, 2);
    BlankLineMatchMatches(s, 2);
    assert s[4] == 'b';
    DeletesMatch(s, 2);
  }

  lemma CollapsedLastLine(s: string)
    requires s == "a\n\n\nb\n"
    ensures RemoveBlankLines(s, 4) == "b\n"
  {
    assert LineEnd(s, 4) == 5;
    ContentLineKept(s, 4, 4);
    assert s[4..6] == "b\n";
  }

  // ---------------------------------------------------------------------------
  // Where each fragment lands

  /** Where fragment `i` starts in the joined text: the total length of the
      fragments before it. */
  function Offset(fragments: seq<string>, i: nat): nat
    requires i <= |fragments|
  {
    if i == 0 then 0 else |fragments[0]| + Offset(fragments[1..], i - 1)
  }

  /** The joined text is exactly as long as the fragments together, and each
      fragment sits in it, whole, at its offset, right after the one before it. */
  lemma {:induction false} JoinPlacesFragments(fragments: seq<string>)
    ensures |Join(fragments)| == Offset(fragments, |fragments|)
    ensures forall i :: 0 <= i < |fragments| ==> Offset(fragments, i + 1) == Offset(fragments, i) + |fragments[i]|
    ensures forall i :: 0 <= i < |fragments| ==>
              Offset(fragments, i) + |fragments[i]| <= |Join(fragments)|
              && Join(fragments)[Offset(fragments, i)..Offset(fragments, i) + |fragments[i]|] == fragments[i]
    decreases |fragments|
  {
    if |fragments| > 0 {
      var rest := fragments[1..];
      JoinPlacesFragments(rest);
      var r, n := Join(fragments), |fragments[0]|;
      assert r == fragments[0] + Join(rest);
      forall i | 0 <= i < |fragments|
        ensures Offset(fragments, i + 1) == Offset(fragments, i) + |fragments[i]|
        ensures Offset(fragments, i) + |fragments[i]| <= |r| && r[Offset(fragments, i)..Offset(fragments, i) + |fragments[i]|] == fragments[i]
      {
        if i == 0 {
          assert r[0..n] == fragments[0];
        } else {
          assert fragments[i] == rest[i - 1];
          var a := Offset(rest, i - 1);
          assert r[n + a..n + a + |rest[i - 1]|] == Join(rest)[a..a + |rest[i - 1]|];
        }
      }
    }
  }
}
