/**
 * The pieces of JavaScript's string semantics that the scanners rely on:
 * the regular-expression class `\s`, the line terminators that `.` and
 * the multiline `^`/`$` stop at, and `String.prototype.trim`.
 */
module JsText {

  /** The `TypeError`s thrown when a scanner's `match` yields `null` and the
      chain goes on to call a method on it. */
  datatype Fault =
    | NoColonInFieldLine   // `.match(/^(.+):/).pop()` in getFieldName
    | NoNameInTypeOpening  // `.match(/[^type\s]\S+[^\s?{^]/).toString()` in getTypeName

  /** `\s`: ECMAScript WhiteSpace and LineTerminator code points; also the set `trim` removes. */
  predicate IsSpace(c: char) {
    c == '\t' || c == '\n' || c == '\U{B}' || c == '\U{C}' || c == '\r' || c == ' '
    || c == '\U{A0}' || c == '\U{1680}' || ('\U{2000}' <= c <= '\U{200A}')
    || c == '\U{2028}' || c == '\U{2029}' || c == '\U{202F}' || c == '\U{205F}'
    || c == '\U{3000}' || c == '\U{FEFF}'
  }

  /** ECMAScript LineTerminator: what `.` never matches and where multiline `^`/`$` hold. */
  predicate IsLineTerminator(c: char): (b: bool)
    ensures b ==> IsSpace(c)
  {
    c == '\n' || c == '\r' || c == '\U{2028}' || c == '\U{2029}'
  }

  /** The first line terminator at or after `i`, or `|s|` when there is none. */
  function LineEnd(s: string, i: nat): (e: nat)
    requires i <= |s|
    ensures i <= e <= |s|
    ensures forall x :: i <= x < e ==> !IsLineTerminator(s[x])
    ensures e < |s| ==> IsLineTerminator(s[e])
    decreases |s| - i
  {
    if i == |s| || IsLineTerminator(s[i]) then i else LineEnd(s, i + 1)
  }

  /** The first position at or after `i` that does not hold white space, or `|s|`. */
  function SkipSpace(s: string, i: nat): (k: nat)
    requires i <= |s|
    ensures i <= k <= |s|
    ensures forall x :: i <= x < k ==> IsSpace(s[x])
    ensures k < |s| ==> !IsSpace(s[k])
    decreases |s| - i
  {
    if i == |s| || !IsSpace(s[i]) then i else SkipSpace(s, i + 1)
  }

  /** The start of the run of white space that ends at `e`. */
  function SkipSpaceBack(s: string, e: nat): (k: nat)
    requires e <= |s|
    ensures k <= e
    ensures forall x :: k <= x < e ==> IsSpace(s[x])
    ensures k > 0 ==> !IsSpace(s[k - 1])
    decreases e
  {
    if e == 0 || !IsSpace(s[e - 1]) then e else SkipSpaceBack(s, e - 1)
  }

  /** `s` without its leading white space. */
  function TrimStart(s: string): (r: string)
    ensures |r| <= |s| && r == s[|s| - |r|..]
    ensures forall x :: 0 <= x < |s| - |r| ==> IsSpace(s[x])
    ensures r == [] || !IsSpace(r[0])
  {
    s[SkipSpace(s, 0)..]
  }

  /** `s` without its trailing white space. */
  function TrimEnd(s: string): (r: string)
    ensures |r| <= |s| && r == s[..|r|]
    ensures forall x :: |r| <= x < |s| ==> IsSpace(s[x])
    ensures r == [] || !IsSpace(r[|r| - 1])
  {
    s[..SkipSpaceBack(s, |s|)]
  }

  /** `String.prototype.trim`: the slice of `s` left after cutting the white
      space at both ends. It starts and ends with a character that is not white space. */
  function Trim(s: string): (r: string)
    ensures var k := |s| - |TrimStart(s)|;
            k + |r| <= |s| && r == s[k..k + |r|]
            && (forall x :: 0 <= x < k ==> IsSpace(s[x]))
            && (forall x :: k + |r| <= x < |s| ==> IsSpace(s[x]))
    ensures r == [] || (!IsSpace(r[0]) && !IsSpace(r[|r| - 1]))
  {
    var t := TrimStart(s);
    var r := TrimEnd(t);
    var k := |s| - |t|;
    assert forall x :: k + |r| <= x < |s| ==> s[x] == t[x - k];
    r
  }

  /** Trimming a string whose first character is not white space only cuts at the end. */
  lemma TrimOfNonSpaceStart(s: string)
    requires s != [] && !IsSpace(s[0])
    ensures Trim(s) == TrimEnd(s)
  {
  }

  /** A slice of `s` starting at `i` has its first line end where the line of
      `s` at `i` ends, or at its own end if that comes first. */
  lemma LineEndOfSlice(s: string, i: nat, t: string)
    requires i + |t| <= |s| && t == s[i..i + |t|]
    ensures var le := LineEnd(s, i) - i;
            LineEnd(t, 0) == if le < |t| then le else |t|
  {
    var le := LineEnd(s, i) - i;
    assert forall y :: 0 <= y < |t| ==> t[y] == s[i + y];
    if le < |t| {
      assert IsLineTerminator(t[le]);
    }
  }

  /** A prefix of a suffix is a slice. */
  lemma SliceOfSuffix(s: string, i: nat, k: nat)
    requires i + k <= |s|
    ensures s[i..][..k] == s[i..i + k]
  {
  }
}
