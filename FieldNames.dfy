/**
 * getFieldName: the field a resolver belongs to is the last field declared
 * in the fragment that precedes it.
 *
 * The source runs `definition.match(/[^\s].+[\s\n:]+$/)` (no `m` flag, so
 * `$` is the end of the text and `.` stops at line terminators), trims the
 * matched text, runs `/^(.+):/` on it and returns the captured group.
 * A fragment without a match yields `null`; a matched text whose first line
 * has no colon after its first character makes `.pop()` throw.
 */
module FieldNames {
  import opened Wrappers
  import opened JsText

  /** The class `[\s\n:]`. */
  predicate IsSpaceOrColon(c: char) {
    IsSpace(c) || c == ':'
  }

  /** Start of the longest run of `[\s\n:]` characters that ends at `e`. */
  function TailStart(s: string, e: nat): (t: nat)
    requires e <= |s|
    ensures t <= e
    ensures forall x :: t <= x < e ==> IsSpaceOrColon(s[x])
    ensures t > 0 ==> !IsSpaceOrColon(s[t - 1])
    decreases e
  {
    if e == 0 || !IsSpaceOrColon(s[e - 1]) then e else TailStart(s, e - 1)
  }

  /** `[^\s].+[\s\n:]+$` matches `s[i..]` with `[^\s]` at `i`, `.+` over
      `s[i+1..j]` and `[\s\n:]+` over `s[j..]`. */
  ghost predicate FieldSplit(s: string, i: nat, j: nat) {
    i < |s| && !IsSpace(s[i]) && i + 2 <= j < |s|
    && (forall x :: i < x < j ==> !IsLineTerminator(s[x]))
    && (forall x :: j <= x < |s| ==> IsSpaceOrColon(s[x]))
  }

  /** The field pattern matches starting at `i`; the match then runs to the end of `s`. */
  ghost predicate FieldPatternAt(s: string, i: nat) {
    exists j: nat :: FieldSplit(s, i, j)
  }

  /** The scanner's test at `i`: `.+` can reach from `i + 1` to a split point
      that lies in the trailing `[\s\n:]` run, without crossing a line end. */
  predicate FieldMatchesAt(s: string, i: nat)
    requires i < |s|
  {
    var e := LineEnd(s, i + 1);
    var t := TailStart(s, |s|);
    !IsSpace(s[i]) && i + 2 <= e && i + 2 < |s| && t <= e && t < |s|
  }

  lemma FieldMatchesAtIsPattern(s: string, i: nat)
    requires i < |s|
    ensures FieldMatchesAt(s, i) <==> FieldPatternAt(s, i)
  {
    var e := LineEnd(s, i + 1);
    var t := TailStart(s, |s|);
    if FieldMatchesAt(s, i) {
      var j := if t < i + 2 then i + 2 else t;
      assert FieldSplit(s, i, j);
    }
    if FieldPatternAt(s, i) {
      var j: nat :| FieldSplit(s, i, j);
      if j < t {
        assert IsSpaceOrColon(s[t - 1]);
      }
      if e < j {
        assert !IsLineTerminator(s[e]);
      }
    }
  }

  /** The leftmost start at or after `i` where the field pattern matches. */
  function FirstFieldMatch(s: string, i: nat): (r: Option<nat>)
    requires i <= |s|
    ensures r.Some? ==> i <= r.value < |s| && FieldPatternAt(s, r.value)
    ensures forall x :: i <= x < |s| && (r.None? || x < r.value) ==> !FieldPatternAt(s, x)
    decreases |s| - i
  {
    if i == |s| then None
    else
      FieldMatchesAtIsPattern(s, i);
      if FieldMatchesAt(s, i) then Some(i) else FirstFieldMatch(s, i + 1)
  }

  /** The last `x` in `[lo, k)` with `t[x] == ':'`. */
  function LastColon(t: string, lo: nat, k: nat): (r: Option<nat>)
    requires lo <= k <= |t|
    ensures r.Some? ==> lo <= r.value < k && t[r.value] == ':'
    ensures forall x :: lo <= x < k && (r.None? || r.value < x) ==> t[x] != ':'
    decreases k
  {
    if k == lo then None
    else if t[k - 1] == ':' then Some(k - 1)
    else LastColon(t, lo, k - 1)
  }

  /** `t.match(/^(.+):/).pop()`: greedy `.+` keeps the first line of `t` up
      to its last colon, provided that colon is not the first character. */
  function BeforeLastColon(t: string): (r: Option<string>)
    ensures r.Some? ==> var k := |r.value|;
              1 <= k < LineEnd(t, 0) && r.value == t[..k] && t[k] == ':'
              && forall x :: k < x < LineEnd(t, 0) ==> t[x] != ':'
    ensures r.None? ==> forall x :: 1 <= x < LineEnd(t, 0) ==> t[x] != ':'
  {
    var e := LineEnd(t, 0);
    if e == 0 then None
    else match LastColon(t, 1, e)
      case None => None
      case Some(k) => Some(t[..k])
  }

  /** `n` is what the source returns for a match starting at `i`: it starts at
      `i`, stays on one line, and is followed by the last colon of that line. */
  ghost predicate FieldNameAt(s: string, i: nat, n: string) {
    i < |s| && n != [] && i + |n| < |s| && s[i..i + |n|] == n && s[i + |n|] == ':'
    && (forall x :: i <= x < i + |n| ==> !IsLineTerminator(s[x]))
    && (forall x :: i + |n| < x < LineEnd(s, i) ==> s[x] != ':')
  }

  /** `i` is the leftmost start of the field pattern. */
  ghost predicate LeftmostFieldMatch(s: string, i: nat) {
    FieldPatternAt(s, i) && forall x :: 0 <= x < i ==> !FieldPatternAt(s, x)
  }

  /** The source's getFieldName. */
  function GetFieldName(definition: string): (r: Result<Option<string>, Fault>)
    ensures r == Ok(None) <==> forall i :: 0 <= i < |definition| ==> !FieldPatternAt(definition, i)
    ensures r.Ok? && r.value.Some? ==>
              exists i: nat :: LeftmostFieldMatch(definition, i) && FieldNameAt(definition, i, r.value.value)
    ensures r.Err? ==>
              r.error == NoColonInFieldLine &&
              exists i: nat :: LeftmostFieldMatch(definition, i) && i < |definition|
                && forall x :: i < x < LineEnd(definition, i) ==> definition[x] != ':'
  {
    match FirstFieldMatch(definition, 0)
    case None => Ok(None)
    case Some(i) =>
      var t := Trim(definition[i..]);
      TrimmedMatch(definition, i);
      NameFromMatchedLine(definition, i, t);
      match BeforeLastColon(t)
      case None => Err(NoColonInFieldLine)
      case Some(name) => Ok(Some(name))
  }

  /** What `/^(.+):/` finds in `t`, the match `s[i..]` less trailing white
      space, read back on `s`. */
  lemma NameFromMatchedLine(s: string, i: nat, t: string)
    requires i + |t| <= |s| && t == s[i..i + |t|]
    requires forall x :: i + |t| <= x < |s| ==> IsSpace(s[x])
    ensures var r := BeforeLastColon(t);
            (r.Some? ==> FieldNameAt(s, i, r.value))
            && (r.None? ==> forall x :: i < x < LineEnd(s, i) ==> s[x] != ':')
  {
    SliceLineEnd(s, i, t);
    var e := LineEnd(t, 0);
    var r := BeforeLastColon(t);
    if r.Some? {
      var n := r.value;
      assert s[i..i + |n|] == n;
      assert s[i + |n|] == t[|n|];
      forall x | i <= x < i + |n| ensures !IsLineTerminator(s[x]) {
        assert s[x] == t[x - i];
      }
      forall x | i + |n| < x < LineEnd(s, i) ensures s[x] != ':' {
        if x < i + e { assert s[x] == t[x - i]; }
      }
    } else {
      forall x | i < x < LineEnd(s, i) ensures s[x] != ':' {
        if x < i + e { assert s[x] == t[x - i]; }
      }
    }
  }

  /** The trimmed match `Trim(s[i..])` is `s[i..]` less trailing white space. */
  lemma TrimmedMatch(s: string, i: nat)
    requires i < |s| && !IsSpace(s[i])
    ensures var t := Trim(s[i..]);
            |t| <= |s| - i && t == s[i..i + |t|]
            && (forall x :: i + |t| <= x < |s| ==> IsSpace(s[x]))
  {
    var u := s[i..];
    TrimOfNonSpaceStart(u);
    var t := TrimEnd(u);
    SliceOfSuffix(s, i, |t|);
    forall x | i + |t| <= x < |s| ensures IsSpace(s[x]) {
      assert s[x] == u[x - i];
    }
  }

  /** A slice of `s` that starts at `i`, followed in `s` by white space only:
      its first line ends no later than the line of `s` at `i`, and holds every
      colon of that line. */
  lemma SliceLineEnd(s: string, i: nat, t: string)
    requires i + |t| <= |s| && t == s[i..i + |t|]
    requires forall x :: i + |t| <= x < |s| ==> IsSpace(s[x])
    ensures LineEnd(t, 0) <= LineEnd(s, i) - i
    ensures forall x :: i + LineEnd(t, 0) <= x < LineEnd(s, i) ==> s[x] != ':'
  {
    LineEndOfSlice(s, i, t);
  }

  /** Given the start of the match, the name is determined. */
  lemma FieldNameAtUnique(s: string, i: nat, n: string, m: string)
    requires FieldNameAt(s, i, n) && FieldNameAt(s, i, m)
    ensures n == m
  {
  }

  /** The usual fragment before a resolver: its last line declares a field
      `name: Type`, followed only by white space. The result is `name`. */
  lemma FieldNameOfDeclarationLine(s: string, pre: string, indent: string, name: string, rest: string, tail: string)
    requires s == pre + indent + name + [':'] + rest + tail
    requires pre == [] || IsLineTerminator(pre[|pre| - 1])
    requires forall c :: c in indent ==> IsSpace(c) && !IsLineTerminator(c)
    requires name != [] && !IsSpace(name[0]) && forall c :: c in name ==> !IsLineTerminator(c)
    requires rest != [] && !IsSpace(rest[|rest| - 1])
    requires forall c :: c in rest ==> !IsLineTerminator(c) && c != ':'
    requires tail != [] && forall c :: c in tail ==> IsSpace(c)
    ensures GetFieldName(s) == Ok(Some(name))
  {
    DeclarationLineMatches(s, pre, indent, name, rest, tail);
    DeclarationLineName(s, pre, indent, name, rest, tail);
    GetFieldNameAt(s, |pre| + |indent|, name);
  }

  /** The converse of GetFieldName's contract: a name standing at the leftmost
      match, before the last colon of its line, is the result. */
  lemma GetFieldNameAt(s: string, i: nat, name: string)
    requires LeftmostFieldMatch(s, i) && FieldNameAt(s, i, name)
    ensures GetFieldName(s) == Ok(Some(name))
  {
    ColonOnNameLine(s, i, name);
    var r := GetFieldName(s);
    assert r != Ok(None);
    if r.Ok? {
      var i': nat :| LeftmostFieldMatch(s, i') && FieldNameAt(s, i', r.value.value);
      assert i' == i;
      FieldNameAtUnique(s, i, name, r.value.value);
    }
  }

  /** The colon after a name lies on the name's own line. */
  lemma ColonOnNameLine(s: string, i: nat, name: string)
    requires FieldNameAt(s, i, name)
    ensures i + |name| < LineEnd(s, i)
  {
  }

  /** In such a fragment the field pattern first matches at the start of `name`. */
  lemma DeclarationLineMatches(s: string, pre: string, indent: string, name: string, rest: string, tail: string)
    requires s == pre + indent + name + [':'] + rest + tail
    requires pre == [] || IsLineTerminator(pre[|pre| - 1])
    requires forall c :: c in indent ==> IsSpace(c) && !IsLineTerminator(c)
    requires name != [] && !IsSpace(name[0]) && forall c :: c in name ==> !IsLineTerminator(c)
    requires rest != [] && !IsSpace(rest[|rest| - 1])
    requires forall c :: c in rest ==> !IsLineTerminator(c) && c != ':'
    requires tail != [] && forall c :: c in tail ==> IsSpace(c)
    ensures LeftmostFieldMatch(s, |pre| + |indent|)
  {
    var i := |pre| + |indent|;
    var k := i + |name|;
    var j := k + 1 + |rest|;
    assert s[i] == name[0];
    forall x | i < x < j ensures !IsLineTerminator(s[x]) {
      if x < k { assert s[x] == name[x - i]; }
      else if x > k { assert s[x] == rest[x - k - 1]; }
    }
    forall x | j <= x < |s| ensures IsSpaceOrColon(s[x]) {
      assert s[x] == tail[x - j];
    }
    assert FieldSplit(s, i, j);
    assert s[j - 1] == rest[|rest| - 1];
    if |pre| > 0 {
      assert s[|pre| - 1] == pre[|pre| - 1];
    }
    forall x | |pre| <= x < i ensures !FieldPatternAt(s, x) {
      assert s[x] == indent[x - |pre|];
    }
  }

  /** In such a fragment `name` is what stands before the last colon of its line. */
  lemma DeclarationLineName(s: string, pre: string, indent: string, name: string, rest: string, tail: string)
    requires s == pre + indent + name + [':'] + rest + tail
    requires name != [] && forall c :: c in name ==> !IsLineTerminator(c)
    requires forall c :: c in rest ==> !IsLineTerminator(c) && c != ':'
    requires forall c :: c in tail ==> IsSpace(c)
    ensures FieldNameAt(s, |pre| + |indent|, name)
  {
    var i := |pre| + |indent|;
    var k := i + |name|;
    var j := k + 1 + |rest|;
    forall x | i <= x < k ensures !IsLineTerminator(s[x]) {
      assert s[x] == name[x - i];
    }
    forall x | k < x < LineEnd(s, i) ensures s[x] != ':' {
      if x < j { assert s[x] == rest[x - k - 1]; }
      else { assert s[x] == tail[x - j] && tail[x - j] in tail; }
    }
    assert s[i..k] == name;
  }

  /** The lines of the helper test's first fragment (src/main.test.js:142-150)
      before its last line. */
  const CommentThenContent: string :=
    "\n          type Comment {\n            title: String!\n            body: String\n          }\n\n          type Content {" + "\n"
  const Indent12: string := "            "

  /** That fragment yields `title`, as the helper test expects. */
  lemma FirstTestFragmentField()
    ensures GetFieldName(CommentThenContent + Indent12 + "title" + [':'] + " String!" + ("\n" + Indent12)) == Ok(Some("title"))
  {
    FirstTestFragmentPieces();
    FieldNameOfDeclarationLine(
      CommentThenContent + Indent12 + "title" + [':'] + " String!" + ("\n" + Indent12),
      CommentThenContent, Indent12, "title", " String!", "\n" + Indent12);
  }

  /** The pieces of that fragment's last line have the shape of a declaration. */
  lemma FirstTestFragmentPieces()
    ensures IsLineTerminator(CommentThenContent[|CommentThenContent| - 1])
    ensures forall c :: c in Indent12 ==> IsSpace(c) && !IsLineTerminator(c)
    ensures forall c :: c in "title" ==> !IsLineTerminator(c)
    ensures !IsSpace(" String!"[|" String!"| - 1]) && forall c :: c in " String!" ==> !IsLineTerminator(c) && c != ':'
    ensures forall c :: c in "\n" + Indent12 ==> IsSpace(c)
  {
  }
}
