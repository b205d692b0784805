/**
 * getTypeName: the type a resolver belongs to is the last type opened in the
 * fragment that precedes it.
 *
 * The source runs `definition.match(/type\s?.*\s?\{/g)`, keeps the last of
 * the matches, and runs `/[^type\s]\S+[^\s?{^]/` on it. No match of the first
 * pattern yields `null`; no match of the second makes `.toString()` throw.
 * `[^type\s]` is a character class: any character except `t`, `y`, `p`, `e`
 * and white space.
 */
module TypeNames {
  import opened Wrappers
  import opened JsText

  // ---------------------------------------------------------------------------
  // The opening pattern `type\s?.*\s?\{`

  /** The keyword `type` stands at `p`. */
  predicate KeywordAt(s: string, p: nat) {
    p + 4 <= |s| && s[p] == 't' && s[p + 1] == 'y' && s[p + 2] == 'p' && s[p + 3] == 'e'
  }

  /** `\s?\{` matches `s[m..end]`. */
  ghost predicate BraceAt(s: string, m: nat, end: nat) {
    end <= |s| &&
    ((end == m + 1 && s[m] == '{') || (end == m + 2 && IsSpace(s[m]) && s[m + 1] == '{'))
  }

  /** `type\s?.*\s?\{` matches `s[p..end]`: the keyword, `\s?` up to `q`,
      `.*` over `s[q..m]`, then `\s?\{` over `s[m..end]`. */
  ghost predicate OpeningSplit(s: string, p: nat, q: nat, m: nat, end: nat) {
    KeywordAt(s, p) && BraceAt(s, m, end) && q <= m
    && (q == p + 4 || (q == p + 5 && IsSpace(s[p + 4])))
    && (forall x :: q <= x < m ==> !IsLineTerminator(s[x]))
  }

  ghost predicate OpeningMatch(s: string, p: nat, end: nat) {
    exists q: nat, m: nat :: OpeningSplit(s, p, q, m, end)
  }

  /** Backtracking of `.*` followed by `\s?\{`: `.*` gives back characters
      from `m` down to `q`; at each point `\s?` first tries to take one character. */
  function BraceEnd(s: string, q: nat, m: nat): (r: Option<nat>)
    requires q <= m <= |s|
    ensures r.Some? ==> exists k: nat :: q <= k <= m && BraceAt(s, k, r.value)
    ensures forall k: nat, e: nat :: q <= k <= m && BraceAt(s, k, e) ==> r.Some? && e <= r.value
    decreases m - q
  {
    if m + 1 < |s| && IsSpace(s[m]) && s[m + 1] == '{' then
      assert BraceAt(s, m, m + 2);
      Some(m + 2)
    else if m < |s| && s[m] == '{' then
      assert BraceAt(s, m, m + 1);
      Some(m + 1)
    else if m == q then None
    else BraceEnd(s, q, m - 1)
  }

  /** The end of the match of `type\s?.*\s?\{` that starts at the keyword at `p`:
      the first `\s?` tries to take a character before it tries none. */
  function OpeningEnd(s: string, p: nat): (r: Option<nat>)
    requires KeywordAt(s, p)
    ensures r.Some? ==> p + 5 <= r.value <= |s| && OpeningMatch(s, p, r.value)
    ensures forall e: nat :: OpeningMatch(s, p, e) ==> r.Some? && e <= r.value
  {
    var q := p + 4;
    var spaced := if q < |s| && IsSpace(s[q]) then BraceEnd(s, q + 1, LineEnd(s, q + 1)) else None;
    OpeningEndIsLongest(s, p, spaced);
    if spaced.Some? then spaced else BraceEnd(s, q, LineEnd(s, q))
  }

  /** Each split of a match ends on the line of its `.*`, within reach of `BraceEnd`. */
  lemma SplitWithinLine(s: string, p: nat, q: nat, m: nat, end: nat)
    requires OpeningSplit(s, p, q, m, end)
    ensures q <= |s| && m <= LineEnd(s, q)
  {
  }

  lemma OpeningEndIsLongest(s: string, p: nat, spaced: Option<nat>)
    requires KeywordAt(s, p)
    requires spaced == if p + 4 < |s| && IsSpace(s[p + 4]) then BraceEnd(s, p + 5, LineEnd(s, p + 5)) else None
    ensures var r := if spaced.Some? then spaced else BraceEnd(s, p + 4, LineEnd(s, p + 4));
            (r.Some? ==> p + 5 <= r.value <= |s| && OpeningMatch(s, p, r.value))
            && (forall e: nat :: OpeningMatch(s, p, e) ==> r.Some? && e <= r.value)
  {
    var q := p + 4;
    var plain := BraceEnd(s, q, LineEnd(s, q));
    var r := if spaced.Some? then spaced else plain;
    if spaced.Some? {
      var k: nat :| q + 1 <= k <= LineEnd(s, q + 1) && BraceAt(s, k, spaced.value);
      assert OpeningSplit(s, p, q + 1, k, spaced.value);
    } else if plain.Some? {
      var k: nat :| q <= k <= LineEnd(s, q) && BraceAt(s, k, plain.value);
      assert OpeningSplit(s, p, q, k, plain.value);
    }
    forall e: nat | OpeningMatch(s, p, e)
      ensures r.Some? && e <= r.value
    {
      var q': nat, m: nat :| OpeningSplit(s, p, q', m, e);
      SplitWithinLine(s, p, q', m, e);
      if q' == q + 1 {
        assert spaced == BraceEnd(s, q + 1, LineEnd(s, q + 1));
      } else if spaced.Some? {
        // `.*` taking no character, with `\s?` on the keyword's space: the spaced
        // alternative reaches the same brace with `.*` empty.
        var k: nat :| q + 1 <= k && BraceAt(s, k, spaced.value);
        if m == q {
          if e == q + 2 {
            assert BraceAt(s, q + 1, q + 2);
          }
        } else {
          assert !IsLineTerminator(s[q]);
          assert LineEnd(s, q) == LineEnd(s, q + 1);
        }
      }
    }
  }

  /** A `type … {` opening starts at `p`. */
  predicate OpeningAt(s: string, p: nat) {
    KeywordAt(s, p) && OpeningEnd(s, p).Some?
  }

  /** The `g` scan finds a match at `p`: an opening starts there, and every
      earlier match of the scan ends by `p`. Openings that start inside an
      earlier match, such as the `type {` inside `type Subtype {`, are skipped. */
  ghost predicate ScanStart(s: string, p: nat)
    decreases p
  {
    OpeningAt(s, p) && forall p' :: 0 <= p' < p && ScanStart(s, p') ==> OpeningEnd(s, p').value <= p
  }

  /** Every match of the scan that starts before `from` ends by `from`. */
  ghost predicate ScanClear(s: string, from: nat) {
    forall p' :: 0 <= p' < from && ScanStart(s, p') ==> OpeningEnd(s, p').value <= from
  }

  /** The opening at `p` is the scan's last match: the scan finds it, and no
      opening starts at or after its end. */
  ghost predicate FinalOpening(s: string, p: nat) {
    ScanStart(s, p) && forall p' :: OpeningEnd(s, p).value <= p' < |s| ==> !OpeningAt(s, p')
  }

  /** What the scan knows when it reaches `from`: every earlier match ends by
      `from`, and `last` is a match that ended at or before `from`, with no
      opening starting between its end and `from`. */
  ghost predicate ScannedTo(s: string, from: nat, last: Option<(nat, nat)>) {
    ScanClear(s, from) &&
    (last.Some? ==>
      ScanStart(s, last.value.0) && last.value.1 == OpeningEnd(s, last.value.0).value
      && last.value.1 <= from && forall p' :: last.value.1 <= p' < from ==> !OpeningAt(s, p'))
  }

  /** An opening where the scan stands is a match, and the scan then stands clear at its end. */
  lemma ScanClearOpening(s: string, from: nat)
    requires ScanClear(s, from) && OpeningAt(s, from)
    ensures ScanStart(s, from) && ScanClear(s, OpeningEnd(s, from).value)
  {
    var end := OpeningEnd(s, from).value;
    assert ScanStart(s, from);
    forall p' | 0 <= p' < end && ScanStart(s, p')
      ensures OpeningEnd(s, p').value <= end
    {
      if from < p' {
        ScanStartsApart(s, from, p');
      }
    }
  }

  /** Of two matches of the scan, the earlier ends by the start of the later. */
  lemma ScanStartsApart(s: string, p: nat, q: nat)
    requires ScanStart(s, p) && ScanStart(s, q) && p < q
    ensures OpeningEnd(s, p).value <= q
  {
  }

  /** Where no opening starts, the scan moves on by one character. */
  lemma ScanClearStep(s: string, from: nat)
    requires ScanClear(s, from) && !OpeningAt(s, from)
    ensures ScanClear(s, from + 1)
  {
  }

  /** At most one opening is the scan's last match. */
  lemma FinalOpeningUnique(s: string, p: nat, q: nat)
    requires FinalOpening(s, p) && FinalOpening(s, q)
    ensures p == q
  {
    if p < q {
      ScanStartsApart(s, p, q);
    } else if q < p {
      ScanStartsApart(s, q, p);
    }
  }

  /** `match` with the `g` flag followed by `.pop()`: scanning from `from`, each
      match resumes the search at its end; `last` is the span of the previous match. */
  function LastOpening(s: string, from: nat, last: Option<(nat, nat)>): Option<(nat, nat)>
    requires from <= |s|
    decreases |s| - from
  {
    if from == |s| then last
    else if OpeningAt(s, from) then
      var end := OpeningEnd(s, from).value;
      LastOpening(s, end, Some((from, end)))
    else LastOpening(s, from + 1, last)
  }

  /** The scan keeps the last opening: it finds none only when none starts
      from `from` on and none was found before, and what it keeps is an
      opening after which no other starts. */
  lemma LastOpeningIsFinal(s: string, from: nat, last: Option<(nat, nat)>)
    requires from <= |s| && ScannedTo(s, from, last)
    ensures var r := LastOpening(s, from, last);
            (r.None? <==> last.None? && forall p :: from <= p < |s| ==> !OpeningAt(s, p))
            && (r.Some? ==> FinalOpening(s, r.value.0) && r.value.1 == OpeningEnd(s, r.value.0).value)
            && (r != last ==> from <= r.value.0)
  {
    LastOpeningCases(s, from, last);
  }

  /** Either the scan finds no opening from `from` on and keeps `last`, or
      it returns a final opening at or after `from`. */
  lemma {:induction false} LastOpeningCases(s: string, from: nat, last: Option<(nat, nat)>)
    requires from <= |s| && ScanClear(s, from)
    ensures var r := LastOpening(s, from, last);
            (r == last && forall p :: from <= p < |s| ==> !OpeningAt(s, p))
            || (r.Some? && from <= r.value.0 && FinalOpening(s, r.value.0) && r.value.1 == OpeningEnd(s, r.value.0).value)
    decreases |s| - from
  {
    if from < |s| {
      if OpeningAt(s, from) {
        var end := OpeningEnd(s, from).value;
        ScanClearOpening(s, from);
        LastOpeningCases(s, end, Some((from, end)));
      } else {
        ScanClearStep(s, from);
        LastOpeningCases(s, from + 1, last);
      }
    }
  }

  // ---------------------------------------------------------------------------
  // The name pattern `[^type\s]\S+[^\s?{^]`

  /** `[^type\s]`. */
  predicate NameStartChar(c: char) {
    c != 't' && c != 'y' && c != 'p' && c != 'e' && !IsSpace(c)
  }

  /** `[^\s?{^]`. */
  predicate NameEndChar(c: char) {
    !IsSpace(c) && c != '?' && c != '{' && c != '^'
  }

  /** `[^type\s]\S+[^\s?{^]` matches `x[i..end]`. */
  ghost predicate NameMatch(x: string, i: nat, end: nat) {
    i + 3 <= end <= |x| && NameStartChar(x[i])
    && (forall y :: i < y < end - 1 ==> !IsSpace(x[y]))
    && NameEndChar(x[end - 1])
  }

  /** The first white space at or after `i`, or `|x|`: how far `\S+` can reach. */
  function WordEnd(x: string, i: nat): (w: nat)
    requires i <= |x|
    ensures i <= w <= |x|
    ensures forall y :: i <= y < w ==> !IsSpace(x[y])
    ensures w < |x| ==> IsSpace(x[w])
    decreases |x| - i
  {
    if i == |x| || IsSpace(x[i]) then i else WordEnd(x, i + 1)
  }

  /** The last `y` in `[lo, k)` with `NameEndChar(x[y])`: `\S+` giving back
      characters until `[^\s?{^]` can match. */
  function LastNameEnd(x: string, lo: nat, k: nat): (r: Option<nat>)
    requires lo <= k <= |x|
    ensures r.Some? ==> lo <= r.value < k && NameEndChar(x[r.value])
    ensures forall y :: lo <= y < k && NameEndChar(x[y]) ==> r.Some? && y <= r.value
    decreases k - lo
  {
    if k == lo then None
    else if NameEndChar(x[k - 1]) then Some(k - 1)
    else LastNameEnd(x, lo, k - 1)
  }

  /** The end of the match of the name pattern at `i`, if it matches there. */
  function NameEnd(x: string, i: nat): (r: Option<nat>)
    requires i < |x|
    ensures r.Some? ==> NameMatch(x, i, r.value)
    ensures forall e: nat :: NameMatch(x, i, e) ==> r.Some? && e <= r.value
  {
    if !NameStartChar(x[i]) then None
    else
      var w := WordEnd(x, i + 1);
      if w < i + 2 then None
      else match LastNameEnd(x, i + 2, w)
        case None => None
        case Some(y) => Some(y + 1)
  }

  /** The leftmost match of the name pattern at or after `i`. */
  function FirstName(x: string, i: nat): (r: Option<(nat, nat)>)
    requires i <= |x|
    ensures r.Some? ==> i <= r.value.0 < |x| && NameEnd(x, r.value.0) == Some(r.value.1)
    ensures forall y :: i <= y < |x| && (r.None? || y < r.value.0) ==> NameEnd(x, y).None?
    decreases |x| - i
  {
    if i == |x| then None
    else match NameEnd(x, i)
      case Some(e) => Some((i, e))
      case None => FirstName(x, i + 1)
  }

  /** The name the source reads from one opening: the leftmost, longest match. */
  ghost predicate NameRead(x: string, n: string) {
    exists i: nat, e: nat ::
      i < |x| && NameEnd(x, i) == Some(e) && n == x[i..e]
      && forall y :: 0 <= y < i ==> NameEnd(x, y).None?
  }

  // ---------------------------------------------------------------------------
  // getTypeName

  /** The source's getTypeName. */
  function GetTypeName(definition: string): (r: Result<Option<string>, Fault>)
    ensures r == Ok(None) <==> forall p :: 0 <= p < |definition| ==> !OpeningAt(definition, p)
    ensures r.Ok? && r.value.Some? ==>
              PlainName(r.value.value)
              && exists p :: FinalOpening(definition, p) && NameRead(OpeningText(definition, p), r.value.value)
    ensures r.Err? ==>
              r.error == NoNameInTypeOpening
              && exists p :: FinalOpening(definition, p) && NoName(OpeningText(definition, p))
  {
    LastOpeningIsFinal(definition, 0, None);
    match LastOpening(definition, 0, None)
    case None => Ok(None)
    case Some((p, end)) =>
      var x := OpeningText(definition, p);
      match FirstName(x, 0)
      case None => Err(NoNameInTypeOpening)
      case Some((i, e)) =>
        ReadNameIsPlain(x, i, e);
        Ok(Some(x[i..e]))
  }

  /** The text of the opening that starts at `p`. */
  function OpeningText(s: string, p: nat): (x: string)
    requires OpeningAt(s, p)
    ensures 5 <= |x| && x == s[p..OpeningEnd(s, p).value]
  {
    s[p..OpeningEnd(s, p).value]
  }

  /** The name pattern matches nowhere in `x`. */
  ghost predicate NoName(x: string) {
    forall y :: 0 <= y < |x| ==> NameEnd(x, y).None?
  }

  /** What the name pattern can match: three or more characters without white
      space that neither start with `t`, `y`, `p`, `e` nor end with `?`, `{`, `^`. */
  ghost predicate PlainName(n: string) {
    3 <= |n| && NameStartChar(n[0]) && NameEndChar(n[|n| - 1])
    && forall y :: 0 <= y < |n| ==> !IsSpace(n[y])
  }

  /** The name read from an opening is determined: with the final opening
      unique, so is what GetTypeName may return. */
  lemma NameReadUnique(x: string, n: string, m: string)
    requires NameRead(x, n) && NameRead(x, m)
    ensures n == m
  {
    var i: nat, e: nat :| i < |x| && NameEnd(x, i) == Some(e) && n == x[i..e]
                         && forall y :: 0 <= y < i ==> NameEnd(x, y).None?;
    var j: nat, f: nat :| j < |x| && NameEnd(x, j) == Some(f) && m == x[j..f]
                         && forall y :: 0 <= y < j ==> NameEnd(x, y).None?;
    assert i == j;
  }

  lemma ReadNameIsPlain(x: string, i: nat, e: nat)
    requires i < |x| && NameEnd(x, i) == Some(e)
    ensures e <= |x| && PlainName(x[i..e])
  {
    assert NameMatch(x, i, e);
    var n := x[i..e];
    forall y | 0 <= y < |n| ensures !IsSpace(n[y]) {
      assert n[y] == x[i + y];
    }
  }

  // ---------------------------------------------------------------------------
  // Properties of getTypeName

  /** Every match of the opening pattern ends with the `{` it found. */
  lemma BraceOfOpening(s: string, p: nat)
    ensures OpeningAt(s, p) ==>
              p + 5 <= OpeningEnd(s, p).value <= |s| && s[OpeningEnd(s, p).value - 1] == '{'
  {
    if OpeningAt(s, p) {
      var e := OpeningEnd(s, p).value;
      var q: nat, m: nat :| OpeningSplit(s, p, q, m, e);
    }
  }

  /** No opening starts where no `{` follows. */
  lemma NoOpeningFrom(s: string, from: nat)
    requires forall y :: from <= y < |s| ==> s[y] != '{'
    ensures forall p :: from <= p < |s| ==> !OpeningAt(s, p)
  {
    forall p | from <= p < |s|
      ensures !OpeningAt(s, p)
    {
      BraceOfOpening(s, p);
    }
  }

  /** A fragment without `{` opens no type, and the source returns null. */
  lemma NoBraceNoTypeName(s: string)
    requires '{' !in s
    ensures GetTypeName(s) == Ok(None)
  {
    NoOpeningFrom(s, 0);
  }

  /** Backtracking `.*` stops at the last `{` of the line when nothing after it
      up to the line's end (and one character beyond) is a `{`. */
  lemma {:induction false} BraceEndAtLastBrace(s: string, q: nat, m: nat, e: nat)
    requires q < e <= |s| && e <= m + 1 && m <= |s| && s[e - 1] == '{'
    requires forall y :: e <= y < |s| && y <= m + 1 ==> s[y] != '{'
    ensures BraceEnd(s, q, m) == Some(e)
    decreases m
  {
    if m + 1 > e {
      BraceEndAtLastBrace(s, q, m - 1, e);
    }
  }

  /** `type <mid> {` on a line whose rest holds no `{`: the opening is exactly that text. */
  lemma OpeningOfLine(s: string, p: nat, mid: string)
    requires p + 7 + |mid| <= |s| && s[p..p + 7 + |mid|] == "type " + mid + " {"
    requires forall y :: 0 <= y < |mid| ==> !IsLineTerminator(mid[y]) && mid[y] != '{'
    requires forall y :: p + 7 + |mid| <= y < |s| && y <= LineEnd(s, p + 7 + |mid|) + 1 ==> s[y] != '{'
    ensures OpeningAt(s, p) && OpeningEnd(s, p) == Some(p + 7 + |mid|)
  {
    var e := p + 7 + |mid|;
    var t := s[p..e];
    assert s[p] == t[0] && s[p + 1] == t[1] && s[p + 2] == t[2] && s[p + 3] == t[3];
    assert s[p + 4] == t[4] && s[e - 2] == t[|t| - 2] && s[e - 1] == t[|t| - 1];
    forall y | p + 5 <= y < e
      ensures !IsLineTerminator(s[y])
    {
      assert s[y] == t[y - p];
      if y < e - 2 {
        assert t[y - p] == mid[y - p - 5];
      }
    }
    var l := LineEnd(s, p + 5);
    assert l == LineEnd(s, e);
    BraceEndAtLastBrace(s, p + 5, l, e);
  }

  /** The scan does not pass over `target` when every opening before it ends
      by the time it starts. */
  lemma {:induction false} ScanReaches(s: string, from: nat, last: Option<(nat, nat)>, target: nat)
    requires from <= target <= |s| && ScannedTo(s, from, last)
    requires forall p :: from <= p < target && OpeningAt(s, p) ==> OpeningEnd(s, p).value <= target
    ensures exists last' :: ScannedTo(s, target, last') && LastOpening(s, from, last) == LastOpening(s, target, last')
    decreases target - from
  {
    if from == target {
      assert ScannedTo(s, target, last) && LastOpening(s, from, last) == LastOpening(s, target, last);
    } else if OpeningAt(s, from) {
      var end := OpeningEnd(s, from).value;
      assert LastOpening(s, from, last) == LastOpening(s, end, Some((from, end)));
      ScannedToOpening(s, from);
      ScanReaches(s, end, Some((from, end)), target);
    } else {
      assert LastOpening(s, from, last) == LastOpening(s, from + 1, last);
      ScannedToStep(s, from, last);
      ScanReaches(s, from + 1, last, target);
    }
  }

  lemma ScannedToOpening(s: string, p: nat)
    requires OpeningAt(s, p) && ScanClear(s, p)
    ensures ScannedTo(s, OpeningEnd(s, p).value, Some((p, OpeningEnd(s, p).value)))
  {
    ScanClearOpening(s, p);
  }

  lemma ScannedToStep(s: string, from: nat, last: Option<(nat, nat)>)
    requires from < |s| && ScannedTo(s, from, last) && !OpeningAt(s, from)
    ensures ScannedTo(s, from + 1, last)
  {
    ScanClearStep(s, from);
  }

  /** The opening at `p` is the one the source keeps: openings before it end
      by `p`, and no `{` follows its end. */
  lemma OpeningIsLast(s: string, p: nat)
    requires OpeningAt(s, p)
    requires forall p' :: 0 <= p' < p && OpeningAt(s, p') ==> OpeningEnd(s, p').value <= p
    requires forall y :: OpeningEnd(s, p).value <= y < |s| ==> s[y] != '{'
    ensures LastOpening(s, 0, None) == Some((p, OpeningEnd(s, p).value))
  {
    var e := OpeningEnd(s, p).value;
    ScanReaches(s, 0, None, p);
    var last' :| ScannedTo(s, p, last') && LastOpening(s, 0, None) == LastOpening(s, p, last');
    assert LastOpening(s, p, last') == LastOpening(s, e, Some((p, e)));
    NoOpeningFrom(s, e);
    ScannedToOpening(s, p);
    LastOpeningIsFinal(s, e, Some((p, e)));
  }

  /** Reading the name from `type <name> {` gives `name` when the pattern can take it whole. */
  lemma NameOfOpeningText(name: string)
    requires PlainName(name) && '{' !in name
    ensures FirstName("type " + name + " {", 0) == Some((5, 5 + |name|))
  {
    var x := "type " + name + " {";
    assert x[0] == 't' && x[1] == 'y' && x[2] == 'p' && x[3] == 'e' && x[4] == ' ';
    assert x[5 + |name|] == ' ' && x[5] == name[0] && x[4 + |name|] == name[|name| - 1];
    forall y | 5 <= y < 5 + |name|
      ensures !IsSpace(x[y])
    {
      assert x[y] == name[y - 5];
    }
    assert WordEnd(x, 6) == 5 + |name|;
    assert NameEnd(x, 5) == Some(5 + |name|);
  }

  /** getTypeName returns `name` from the last opening `type <name> {` of the
      fragment, for a name the pattern reads whole. */
  lemma TypeNameOfOpening(s: string, p: nat, name: string)
    requires p + 7 + |name| <= |s| && s[p..p + 7 + |name|] == "type " + name + " {"
    requires PlainName(name) && '{' !in name
    requires forall p' :: 0 <= p' < p && OpeningAt(s, p') ==> OpeningEnd(s, p').value <= p
    requires forall y :: p + 7 + |name| <= y < |s| ==> s[y] != '{'
    ensures GetTypeName(s) == Ok(Some(name))
  {
    forall y | 0 <= y < |name|
      ensures !IsLineTerminator(name[y]) && name[y] != '{'
    {
    }
    OpeningOfLine(s, p, name);
    OpeningIsLast(s, p);
    NameOfOpeningText(name);
    assert OpeningText(s, p) == "type " + name + " {";
  }

  /** A fragment with one opening, preceded by text without `y` (such as
      `extend `): its name is the type name. */
  lemma TypeNameOfSoleOpening(pre: string, name: string, post: string)
    requires 'y' !in pre && '{' !in post
    requires PlainName(name) && '{' !in name
    ensures GetTypeName(pre + "type " + name + " {" + post) == Ok(Some(name))
  {
    var s := pre + "type " + name + " {" + post;
    var e := |pre| + 7 + |name|;
    assert s[|pre|..e] == "type " + name + " {";
    forall p' | 0 <= p' < |pre|
      ensures !KeywordAt(s, p')
    {
      if p' + 1 < |pre| {
        assert s[p' + 1] == pre[p' + 1];
      } else {
        assert s[p' + 1] == 't';
      }
    }
    forall y | e <= y < |s|
      ensures s[y] != '{'
    {
      assert s[y] == post[y - e];
    }
    TypeNameOfOpening(s, |pre|, name);
  }

  /** Of two openings, the later one names the type; the earlier one is closed
      on its own line. */
  lemma TypeNameOfLaterOpening(a: string, n1: string, b: string, n2: string, c: string)
    requires 'y' !in a && 'y' !in n1 && 'y' !in b
    requires '{' !in n1 && forall y :: 0 <= y < |n1| ==> !IsLineTerminator(n1[y])
    requires '{' !in b && |b| > 0 && IsLineTerminator(b[0])
    requires PlainName(n2) && '{' !in n2 && '{' !in c
    ensures GetTypeName(a + "type " + n1 + " {" + b + "type " + n2 + " {" + c) == Ok(Some(n2))
  {
    LaterOpeningIsRead(a + "type " + n1 + " {" + b + "type " + n2 + " {" + c, a, n1, b, n2, c);
  }

  lemma LaterOpeningIsRead(s: string, a: string, n1: string, b: string, n2: string, c: string)
    requires s == a + "type " + n1 + " {" + b + "type " + n2 + " {" + c
    requires 'y' !in a && 'y' !in n1 && 'y' !in b
    requires '{' !in n1 && forall y :: 0 <= y < |n1| ==> !IsLineTerminator(n1[y])
    requires '{' !in b && |b| > 0 && IsLineTerminator(b[0])
    requires PlainName(n2) && '{' !in n2 && '{' !in c
    ensures GetTypeName(s) == Ok(Some(n2))
  {
    var second := "type " + n2 + " {";
    var rest := second + c;
    assert s == a + ("type " + n1 + " {") + b + rest;
    var p2 := |a| + 7 + |n1| + |b|;
    FirstOpeningCloses(s, a, n1, b, rest);
    KeywordsBefore(s, a, n1, b, rest);
    assert s[p2..p2 + |second|] == second && s[p2 + |second|..] == c;
    forall y | p2 + |second| <= y < |s|
      ensures s[y] != '{'
    {
      assert s[y] == c[y - p2 - |second|];
    }
    TypeNameOfOpening(s, p2, n2);
  }

  lemma FirstOpeningCloses(s: string, a: string, n1: string, b: string, rest: string)
    requires s == a + ("type " + n1 + " {") + b + rest
    requires '{' !in n1 && forall y :: 0 <= y < |n1| ==> !IsLineTerminator(n1[y])
    requires '{' !in b && |b| > 0 && IsLineTerminator(b[0]) && |rest| > 0 && rest[0] == 't'
    ensures OpeningAt(s, |a|) && OpeningEnd(s, |a|) == Some(|a| + 7 + |n1|)
  {
    var first := "type " + n1 + " {";
    var p1, e1 := |a|, |a| + |first|;
    assert s[p1..e1] == first;
    assert s[e1] == b[0];
    assert LineEnd(s, e1) == e1;
    forall y | e1 <= y < |s| && y <= e1 + 1
      ensures s[y] != '{'
    {
      if y - e1 < |b| {
        assert s[y] == b[y - e1];
      } else {
        assert s[y] == rest[0];
      }
    }
    OpeningOfLine(s, p1, n1);
  }

  lemma KeywordsBefore(s: string, a: string, n1: string, b: string, rest: string)
    requires s == a + ("type " + n1 + " {") + b + rest
    requires 'y' !in a && 'y' !in n1 && 'y' !in b && |rest| > 0 && rest[0] == 't'
    ensures forall p' :: 0 <= p' < |a| + 7 + |n1| + |b| && p' != |a| ==> !KeywordAt(s, p')
  {
    var first := "type " + n1 + " {";
    var p1, e1 := |a|, |a| + |first|;
    var p2 := e1 + |b|;
    forall p' | 0 <= p' < p2 && p' != p1
      ensures !KeywordAt(s, p')
    {
      var y := p' + 1;
      if y < p1 {
        assert s[y] == a[y];
      } else if y < e1 {
        assert s[y] == first[y - p1];
        if 5 <= y - p1 < 5 + |n1| {
          assert first[y - p1] == n1[y - p1 - 5];
        }
      } else if y < p2 {
        assert s[y] == b[y - e1];
      } else {
        assert s[y] == rest[0];
      }
    }
  }

  /** A name of fewer than three characters is shorter than the name pattern,
      so `.toString()` on its null match throws, whatever follows the opening
      when it holds no `{`. */
  lemma ShortNameFails(name: string, post: string)
    requires |name| < 3
    requires forall y :: 0 <= y < |name| ==> !IsSpace(name[y]) && name[y] != '{'
    requires '{' !in post
    ensures GetTypeName("type " + name + " {" + post) == Err(NoNameInTypeOpening)
  {
    var x := "type " + name + " {";
    SoleOpeningIsWhole(name, post);
    ShortOpeningHasNoName(name);
    assert FirstName(x, 0).None?;
  }

  /** `type <name> {` followed by text without `{` is one opening, `type <name> {` itself. */
  lemma SoleOpeningIsWhole(name: string, post: string)
    requires forall y :: 0 <= y < |name| ==> !IsLineTerminator(name[y]) && name[y] != '{'
    requires '{' !in post
    ensures var s, x := "type " + name + " {" + post, "type " + name + " {";
            OpeningAt(s, 0) && LastOpening(s, 0, None) == Some((0, |x|)) && OpeningText(s, 0) == x
  {
    var s, x := "type " + name + " {" + post, "type " + name + " {";
    assert s[0..|x|] == x;
    forall y | |x| <= y < |s|
      ensures s[y] != '{'
    {
      assert s[y] == post[y - |x|];
    }
    OpeningOfLine(s, 0, name);
    OpeningIsLast(s, 0);
  }

  /** A name of fewer than three characters leaves the name pattern no match. */
  lemma ShortOpeningHasNoName(name: string)
    requires |name| < 3
    requires forall y :: 0 <= y < |name| ==> !IsSpace(name[y])
    ensures forall i: nat, e: nat :: !NameMatch("type " + name + " {", i, e)
  {
    var x := "type " + name + " {";
    forall i: nat, e: nat
      ensures !NameMatch(x, i, e)
    {
      assert x[5 + |name|] == ' ' && x[4] == ' ' && x[6 + |name|] == '{';
    }
  }

  /** A name starting with `t`, `y`, `p` or `e` loses that letter: `[^type\s]`
      cannot start on it. */
  lemma LeadingTypeLetterDropped()
    ensures GetTypeName("type tags {") == Ok(Some("ags"))
  {
    var x := "type tags {";
    assert x[0..11] == "type " + "tags" + " {";
    OpeningOfLine(x, 0, "tags");
    OpeningIsLast(x, 0);
    assert OpeningText(x, 0) == x;
    NameOfTags(x);
  }

  lemma NameOfTags(x: string)
    requires x == "type tags {"
    ensures FirstName(x, 0) == Some((6, 9)) && x[6..9] == "ags"
  {
    assert x[5] == 't' && x[6] == 'a' && x[7] == 'g' && x[8] == 's' && x[9] == ' ';
    assert WordEnd(x, 7) == 9;
    assert NameEnd(x, 6) == Some(9);
    assert NameEnd(x, 5) == None;
    assert FirstName(x, 0) == FirstName(x, 6);
  }

  /** A `type` keyword inside the name opens nothing the scan finds: the
      inner `type {` of `type Subtype {` lies within the first match. */
  lemma InnerKeywordSkipped()
    ensures GetTypeName("type Subtype {") == Ok(Some("Subtype"))
  {
    var name := "Subtype";
    assert name[0] == 'S' && name[6] == 'e';
    assert PlainName(name);
    assert "type Subtype {" == [] + "type " + name + " {" + [];
    TypeNameOfSoleOpening([], name, []);
  }

  /** Every leading `t`, `y`, `p` or `e` is skipped; when fewer than three
      characters remain, nothing matches and the call throws. */
  lemma LeadingTypeLettersExhaustName()
    ensures GetTypeName("type test {") == Err(NoNameInTypeOpening)
  {
    var x := "type test {";
    TestOpeningIsWhole(x);
    NoNameInTest(x);
    assert FirstName(x, 0).None?;
  }

  lemma TestOpeningIsWhole(x: string)
    requires x == "type test {"
    ensures OpeningAt(x, 0) && LastOpening(x, 0, None) == Some((0, |x|)) && OpeningText(x, 0) == x
  {
    assert x == "type " + "test" + " {" + [];
    SoleOpeningIsWhole("test", []);
  }

  lemma NoNameInTest(x: string)
    requires x == "type test {"
    ensures forall i: nat, e: nat :: !NameMatch(x, i, e)
  {
    forall i: nat, e: nat
      ensures !NameMatch(x, i, e)
    {
      assert x[0] == 't' && x[1] == 'y' && x[2] == 'p' && x[3] == 'e' && x[4] == ' ' && x[5] == 't';
      assert x[6] == 'e' && x[8] == 't' && x[9] == ' ' && x[10] == '{';
    }
  }

  /** A short name does not throw when a later word of the opening can match:
      `type AB implements Node {` yields `implements`. */
  lemma ShortNameSkipped()
    ensures GetTypeName("type AB implements Node {") == Ok(Some("implements"))
  {
    var x := "type AB implements Node {";
    assert x[0..25] == "type " + "AB implements Node" + " {";
    OpeningOfLine(x, 0, "AB implements Node");
    OpeningIsLast(x, 0);
    assert OpeningText(x, 0) == x;
    NameOfImplements(x);
  }

  lemma NameOfImplements(x: string)
    requires x == "type AB implements Node {"
    ensures FirstName(x, 0) == Some((8, 18)) && x[8..18] == "implements"
  {
    NoNameInAB(x);
    ImplementsEnd(x);
    assert FirstName(x, 0) == FirstName(x, 8);
  }

  lemma NoNameInAB(x: string)
    requires x == "type AB implements Node {"
    ensures forall y :: 0 <= y < 8 ==> NameEnd(x, y).None?
  {
    assert x[0] == 't' && x[1] == 'y' && x[2] == 'p' && x[3] == 'e' && x[4] == ' ';
    assert x[5] == 'A' && x[6] == 'B' && x[7] == ' ';
    assert WordEnd(x, 6) == 7;
    assert WordEnd(x, 7) == 7;
  }

  lemma ImplementsEnd(x: string)
    requires x == "type AB implements Node {"
    ensures NameEnd(x, 8) == Some(18) && x[8..18] == "implements"
  {
    var w := "implements";
    assert x[8..18] == w && x[18] == ' ';
    assert forall y :: 9 <= y < 18 ==> x[y] == w[y - 8];
    assert WordEnd(x, 9) == 18;
    assert NameEndChar(x[17]);
    assert LastNameEnd(x, 10, 18) == Some(17);
  }

  /** A word left too short by its leading type letters is passed over for a
      later one: `type ten Foo {` yields `Foo`. */
  lemma ExhaustedWordSkipped()
    ensures GetTypeName("type ten Foo {") == Ok(Some("Foo"))
  {
    var x := "type ten Foo {";
    assert x[0..14] == "type " + "ten Foo" + " {";
    OpeningOfLine(x, 0, "ten Foo");
    OpeningIsLast(x, 0);
    assert OpeningText(x, 0) == x;
    NameOfTenFoo(x);
  }

  lemma NameOfTenFoo(x: string)
    requires x == "type ten Foo {"
    ensures FirstName(x, 0) == Some((9, 12)) && x[9..12] == "Foo"
  {
    assert x[0] == 't' && x[1] == 'y' && x[2] == 'p' && x[3] == 'e' && x[4] == ' ';
    assert x[5] == 't' && x[6] == 'e' && x[7] == 'n' && x[8] == ' ';
    assert x[9] == 'F' && x[11] == 'o' && x[12] == ' ';
    assert WordEnd(x, 8) == 8;
    assert WordEnd(x, 10) == 12;
    assert NameEnd(x, 9) == Some(12);
    assert NameEnd(x, 8) == None && NameEnd(x, 7) == None;
    assert FirstName(x, 0) == FirstName(x, 9);
  }

  // The first two fragments of a two-type definition: the text up to the first
  // interpolation, after `type User {…}`, and the text between the two interpolations.
  const UserIndent: string := "\n          "
  const UserBody: string := "\n            title: String!" + "\n            created: String" + "\n          }\n\n          "
  const ContentTail: string := "\n            title: String!\n            "
  const CreatedLine: string := "\n            created: String\n            "

  /** The fragment before the first resolver names the later type, `Content`. */
  lemma TestFragmentTypes()
    ensures GetTypeName(UserIndent + "type " + "User" + " {" + UserBody + "type " + "Content" + " {" + ContentTail)
            == Ok(Some("Content"))
  {
    UserIndentLetters();
    UserLetters();
    UserBodyLetters();
    ContentLetters();
    TypeNameOfLaterOpening(UserIndent, "User", UserBody, "Content", ContentTail);
  }

  /** The fragment after the first resolver opens no type. */
  lemma CreatedLineType()
    ensures GetTypeName(CreatedLine) == Ok(None)
  {
    assert '{' !in CreatedLine;
    NoBraceNoTypeName(CreatedLine);
  }

  lemma UserIndentLetters()
    ensures 'y' !in UserIndent
  {
  }

  lemma UserLetters()
    ensures 'y' !in "User" && '{' !in "User"
    ensures forall y :: 0 <= y < |"User"| ==> !IsLineTerminator("User"[y])
  {
  }

  lemma ContentLetters()
    ensures PlainName("Content") && '{' !in "Content" && '{' !in ContentTail
  {
    var content := "Content";
    assert content[0] == 'C' && content[6] == 't';
  }

  lemma UserBodyLetters()
    ensures 'y' !in UserBody && '{' !in UserBody && UserBody[0] == '\n'
  {
    var l1, l2, l3 := "\n            title: String!", "\n            created: String", "\n          }\n\n          ";
    assert 'y' !in l1 && '{' !in l1;
    assert 'y' !in l2 && '{' !in l2;
    assert 'y' !in l3 && '{' !in l3;
    assert UserBody == l1 + l2 + l3;
  }
}
