# literal-schema, modelled in Dafny

literal-schema lets an author write a GraphQL schema as a tagged template. Each
interpolated function is a resolver. `extract` returns two things:

- `resolvers`: a map from type name to field name to resolver. A resolver is
  bound to the field declared just before it, under the type whose
  `type … {` opening comes last before it. A type opened in an earlier
  fragment carries over.
- `typeDefs`: the template's strings joined, with blank lines removed.

`withAST(toAST)` is the same tag, but with `toAST` applied to `typeDefs`.

The whole core is `src/main.js`, and it is pure code, so the model is made of
datatypes, functions and lemmas:

- `JsText`: the JavaScript pieces the scanners rely on. These are the `\s`
  class, line terminators, `trim`, and the two `TypeError`s a failed
  `match` chain throws (`Fault`).
- `FieldNames`: `getFieldName`.
- `TypeNames`: `getTypeName`.
- `Concat`: `concatDefinitions`.
- `Extract`: the `reduce` in `extract`, `extract` itself, and `withAST`.

Each regular expression is written out as a scanner. The scanner follows
ECMAScript matching order: leftmost start, greedy quantifiers that give
characters back, and, with the `g` flag, a search that resumes where the
previous match ended. Each scanner is paired with a declarative predicate
saying what it means for the pattern to match at a position. A lemma then
proves that the scanner returns the leftmost match, or the longest one,
under that predicate.

A thrown `TypeError` is an `Err` value. JavaScript's `null` is `None`.

`extract` takes the template's strings and its interpolated values as two
sequences. The caller supplies the resolver functions and `toAST`. The model
never calls them: it only stores them, or applies `toAST` to the text.

Some behaviour of the code is easy to misread. The model follows the code:

- **What the type name is.** The name is the leftmost, longest match of
  `[^type\s]\S+[^\s?{^]` anywhere in the text of the last opening, from its
  `type` keyword to its `{`. It is not the word after `type`. A match needs
  three or more non-space characters and cannot start on `t`, `y`, `p`, `e`,
  so `type tags {` gives `ags` (`TypeNames.LeadingTypeLetterDropped`). The
  call throws only when nothing in the opening matches:
  - `type A {` throws, as does any name of fewer than three characters when
    nothing else follows it in the opening (`TypeNames.ShortNameFails`).
  - `type test {` throws, because its leading `t` and `e` are skipped and only
    `st` is left (`TypeNames.LeadingTypeLettersExhaustName`).
  - `type AB implements Node {` does not throw: it gives `implements`
    (`TypeNames.ShortNameSkipped`).
  - `type ten Foo {` gives `Foo` (`TypeNames.ExhaustedWordSkipped`).

  In the last two cases the resolver is bound under `implements` or `Foo`,
  not under the word after `type`.
- **Carry-forward with a short name.** A template whose opening fragment is
  `type A {` with a field `f`, followed by a fragment with a field `g`,
  throws at its first fragment (`Extract.OneLetterTypeThrows`). With `Abc`
  instead of `A`, both resolvers go under `Abc`
  (`Extract.CarryForwardExample`). `src/main.test.js:57-94` relies on the same
  carry-forward: `User.created` is bound from a fragment that opens no type.
- **A keyword inside a name.** The `g` scan resumes after each match, so the
  `type {` inside `type Subtype {` is not a match of its own, and the name
  read is `Subtype`. See `TypeNames.InnerKeywordSkipped`.
- **No enclosing type.** A resolver with no enclosing type is stored under
  the key JavaScript writes as `"null"` (`None` here). It is not rejected.
- **A field line with no colon.** When the match has no colon after its
  first character, `getFieldName` throws. It does not return absence.
- **Field names keep a space before the colon.** Only the whole matched text is
  trimmed, not the name before the colon. `name : T` gives `name ` with a
  trailing space.
- **Single empty lines survive.** `concatDefinitions` keeps an empty line
  that is followed by an indented content line, as its own test expects.
  It deletes an indented blank line, and a run of blank lines up to the
  last `\n` of the run. See `Concat.EmptyLineKept` and
  `Concat.CollapsesBlankLines`.

## Model

| member | source | states |
|---|---|---|
| JsText.Trim | src/main.js:31 | the result is a contiguous slice of the input. Only white space lies before and after it, and it neither starts nor ends with white space |
| FieldNames.FieldMatchesAtIsPattern | src/main.js:25 | the scanner's test at `i` holds exactly when `/[^\s].+[\s\n:]+$/` can match from `i` |
| FieldNames.FirstFieldMatch | src/main.js:25 | the position it returns is a match of the field pattern, and none lies before it; it returns none only when no position matches |
| FieldNames.BeforeLastColon | src/main.js:32-33 | `/^(.+):/` with `.pop()`: a result is the first line up to its last colon, which is at position one or later; none exactly when that line has no colon after its first character |
| FieldNames.GetFieldName | src/main.js:24-35 | null exactly when the first pattern matches nowhere. Otherwise the name starts at the leftmost match, stays on its line and ends just before the last colon of that line. It throws exactly when that line has no colon after its first character |
| FieldNames.GetFieldNameAt | src/main.js:24-35 | the converse: a name standing at the leftmost match, before the last colon of its line, is the result |
| FieldNames.FieldNameOfDeclarationLine | src/main.js:24-35 | a fragment ending in the line `<indent>name:rest` followed by white space yields `name` |
| FieldNames.FirstTestFragmentField | src/main.test.js:140-155 | the helper test's first fragment yields `title` |
| TypeNames.OpeningEndIsLongest | src/main.js:38 | the end found for `type\s?.*\s?\{` at a keyword is a match, and no match from there ends later (greedy `.*`, `\s?` first trying one character) |
| TypeNames.OpeningEnd | src/main.js:38 | the end it returns at a `type` keyword is a match of `type\s?.*\s?\{`, and no match from that keyword ends later |
| TypeNames.ScanClearOpening | src/main.js:38 | when every earlier match of the `g` scan has ended and an opening starts where the scan stands, the scan finds it, and after it resumes at that match's end every earlier match has ended there too |
| TypeNames.LastOpeningIsFinal | src/main.js:38-44 | the `g` scan with `.pop()` finds nothing exactly when no opening starts from the scan point. Otherwise what it keeps is a match the scan itself finds, with its end, and no opening starts at or after that end |
| TypeNames.FinalOpeningUnique | src/main.js:38-44 | at most one match of the scan has no opening after its end, so the opening `.pop()` returns is determined |
| TypeNames.InnerKeywordSkipped | src/main.js:38-45 | `type Subtype {` yields `Subtype`: the inner `type {` lies inside the scan's only match |
| TypeNames.NameEnd | src/main.js:45 | the end it returns at a position is a match of `[^type\s]\S+[^\s?{^]` there, and no match from that position ends later |
| TypeNames.FirstName | src/main.js:45 | the match it returns starts at or after the given position and the name pattern matches at no earlier position from there |
| TypeNames.GetTypeName | src/main.js:37-48 | null exactly when nothing matches the opening pattern. Otherwise the result is the leftmost, longest match of the name pattern in the scan's last match, and it is a name of three or more non-space characters. It throws exactly when that opening holds no such match |
| TypeNames.NameReadUnique | src/main.js:45-46 | the leftmost, longest name in an opening is determined, so together with `FinalOpeningUnique` the contract of `GetTypeName` fixes its result |
| TypeNames.NoBraceNoTypeName | src/main.js:38-43 | a fragment without `{` yields null |
| TypeNames.TypeNameOfSoleOpening | src/main.js:37-48 | `extend type Name {` and a lone `type Name {` yield `Name` |
| TypeNames.TypeNameOfLaterOpening | src/main.js:38-44 | of two openings, the later one names the type |
| TypeNames.ShortNameFails | src/main.js:45-46 | `type <name> {` with a name shorter than three characters throws, whatever text without `{` follows it |
| TypeNames.LeadingTypeLetterDropped | src/main.js:45 | `type tags {` yields `ags`, because `[^type\s]` cannot start on `t` |
| TypeNames.LeadingTypeLettersExhaustName | src/main.js:45-46 | `type test {` throws: after its leading `t` and `e` are skipped, only `st` is left, and no three characters match the name pattern |
| TypeNames.ShortNameSkipped | src/main.js:45-46 | `type AB implements Node {` yields `implements`: a short name throws only when nothing later in the opening matches the name pattern |
| TypeNames.ExhaustedWordSkipped | src/main.js:45-46 | `type ten Foo {` yields `Foo`: the name pattern passes over `ten`, whose `t` and `e` are skipped, to the next word that matches |
| TypeNames.TestFragmentTypes | src/main.test.js:157-172 | the helper test's first fragment, which opens `User` and then `Content`, yields `Content` |
| TypeNames.CreatedLineType | src/main.test.js:173 | the helper test's second fragment yields null |
| Concat.BlankLineMatch | src/main.js:51 | a match at `p` ends more than one character after `p`, on a `\n` |
| Concat.RemoveBlankLines | src/main.js:51 | the replacement never lengthens the text; `Concat.RemovesOnlySpace` states that it deletes only white space |
| Concat.RemovesOnlySpace | src/main.js:51 | the replacement from `p` is the text from `p` with some white-space characters deleted and nothing else changed |
| Concat.BlankLineMatchIsLongest | src/main.js:51 | every match of the blank-line pattern ends in a `\n`, so its `\e` branch never matches. The scanner finds a match, and no match is longer |
| Concat.BlankLineMatchMatches | src/main.js:51 | what the scanner finds is a match of that pattern at a line start |
| Concat.ConcatDefinitions | src/main.js:50-51 | no contract of its own: its meaning is stated by `Concat.ConcatKeepsContent` and the line-by-line lemmas below |
| Concat.Join | src/main.js:51 | no contract of its own: where each fragment lands in the joined text is stated by `Concat.JoinPlacesFragments` |
| Concat.JoinPlacesFragments | src/main.js:51 | `join('')` places fragment `i` at the sum of the lengths of the fragments before it, unchanged, and the length of the result is the sum of all lengths |
| Concat.ConcatKeepsContent | src/main.js:50-51 | the result is the joined fragments with only white-space characters deleted. Its non-space characters are those of each fragment, in fragment order |
| Concat.ContentLineKept | src/main.js:51 | a line holding a non-space character is kept whole, with its line terminator |
| Concat.LastLineKept | src/main.js:51 | text with no `\n` after it is kept as it is |
| Concat.IndentedBlankLineDropped | src/main.js:51 | an indented line of white space is deleted with its `\n`, and possibly with white space after it |
| Concat.BlankLineDropped | src/main.js:51 | when no `\n` follows in the white space after the `\n` of such a line, exactly that line is deleted |
| Concat.EmptyLineKept | src/main.js:51 | an empty line whose following white space holds no `\n` is kept |
| Concat.EmptyLineAt | src/main.test.js:228-239 | an empty line followed by an indented content line, as between the two types of the expected schema, is kept |
| Concat.CollapsesBlankLines | src/main.js:50-51 | `["a\n\n\n", "b\n"]` becomes `"a\nb\n"` |
| Extract.Upsert | src/main.js:7-11 | no contract of its own: stated by `Extract.UpsertKeepsOthers` |
| Extract.ReadFragment | src/main.js:4-5 | no contract of its own: stated by `Extract.ReadFragmentMeaning` |
| Extract.Step | src/main.js:3-13 | no contract of its own: the reducer, stated through the fold by `Extract.BindOutcome` and `Extract.BindingIsLastWrite` |
| Extract.Bind | src/main.js:2-16 | no contract of its own: stated by `Extract.BindOutcome`, `Extract.BindCarriesType` and `Extract.BindingIsLastWrite` |
| TypeNames.LastOpening | src/main.js:38-44 | no contract of its own: stated by `TypeNames.LastOpeningIsFinal` |
| Extract.UpsertKeepsOthers | src/main.js:7-11 | the update adds the type and field, binds the resolver there, and keeps every other field of that type and every other type |
| Extract.UpsertLastWriteWins | src/main.js:7-11 | binding the same type and field twice leaves the second resolver |
| Extract.BindOutcome | src/main.js:2-16 | the fold succeeds exactly when each fragment before a resolver reads without throwing. Otherwise it fails at the first that throws, with that fragment's fault |
| Extract.LastOpenerIsNearest | src/main.js:5 | the opener found for resolver `k` is the nearest fragment at or before `k` that opens a type, and there is none only when no such fragment opens one |
| Extract.TypeOfIsNearestOpening | src/main.js:5-15 | carry-forward: resolver `k` goes under the type of the nearest fragment at or before `k` that opens one, and under null when none does |
| Extract.BindCarriesType | src/main.js:5-15 | after `n` resolvers the carried type is the one resolver `n - 1` was bound under, and null before any |
| Extract.LastBindingIsLast | src/main.js:7-10 | the binding found is the last one at that type and field, and there is none only when no resolver is bound there |
| Extract.BindingIsLastWrite | src/main.js:2-16 | the fold's map has as types exactly those some resolver is bound under, and as entries exactly the places some resolver is bound at. Each entry holds the last resolver bound there |
| Extract.ResolverBoundFromItsFragment | src/main.js:2-10 | resolver `k` sits at the type and field read from fragment `k`, unless a later resolver is bound at the same place |
| Extract.BindReadsOnlyItsFragments | src/main.js:4-5 | only the fragments before a resolver affect the fold |
| Extract.ReadFragmentMeaning | src/main.js:4-5 | a fragment that reads has as field null exactly when the field pattern matches nowhere, and otherwise the name before the last colon of the leftmost match's line. Its type is null exactly when no opening exists, and otherwise the name read from the scan's last match. It throws the field error exactly when the leftmost match's line has no colon after its first character, and the type error only when the last match holds no name |
| Extract.Extract | src/main.js:1-22 | fails exactly when a fragment before a resolver throws, at the first such one. Otherwise the map is the one the binding lemmas describe and `typeDefs` is `concatDefinitions` of all fragments. No resolvers give an empty map |
| Extract.TrailingFragmentsIgnored | src/main.js:2-16 | the string after the last resolver changes neither the map nor the error |
| Extract.WithAST | src/main.js:53-56 | extract's outcome, with `toAST` applied to the type definitions |
| Extract.WithASTKeepsResolvers | src/main.js:53-56 | the resolver map and any error do not depend on `toAST`, and the identity conversion gives extract back |
| Extract.BindTwo | src/main.js:2-16 | over two fragments whose second opens no type, the fold puts both resolvers under the first fragment's type |
| Extract.CarryForwardOverTwo | src/main.js:1-22 | the same for extract, with `typeDefs` the joined fragments less blank lines |
| Extract.CarryForwardExample | src/main.js:1-22 | `type Abc {` with field `f`, then a fragment with field `g`, binds both resolvers under `Abc` |
| Extract.FirstFragmentThrows | src/main.js:1-22 | when the fragment before the first resolver throws, extract throws at position 0 with that fault |
| Extract.OneLetterTypeThrows | src/main.js:37-48 | the same example with `type A {` throws at position 0, because no name is found in the opening |
| Extract.UserIdTemplate | src/main.test.js:262-278 | a template with one resolver after `id: ID!` inside `type User {` maps `User.id` to that resolver, whatever follows it |

## Left out

- Resolver functions and `toAST` are opaque values that the model never calls. A fault raised inside `toAST` is not modelled.
- `Extract.Extract`, `Extract.WithAST`: these require at least as many strings as resolvers. A template tag always supplies one string more than its values. The `TypeError` from a direct call with too few strings is not modelled.
- Extract.UserIdTemplate: leaves the schema text as `toAST(ConcatDefinitions(..))` of the two strings. It does not compute the text the test compares against. Blank-line removal is covered line by line by the `Concat` lemmas instead.
- Object keys: JavaScript turns a `null` type or field name into the key `"null"`. The model keeps `None` as a key of its own, so a type literally named `null` is not merged with the missing one.
- Object keys: the order of keys and prototype-inherited property names (`acc.resolvers[typeName] || {}` on such a name spreads to an empty object) are not modelled. Maps have no order.
- Strings: a Dafny string is a sequence of Unicode scalar values, not the UTF-16 code units of JavaScript. Lone surrogates and surrogate pairs are not distinguished.
- `binded.resolvers || {}` is always the fold's map, because the initial value is an object. The model returns that map directly.
- Module exports and the package's build set-up are not part of this model.
