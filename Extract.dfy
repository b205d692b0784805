/**
 * extract: the tag function of a GraphQL schema template. The template's
 * literal fragments are the schema text; each interpolated value is a
 * resolver, bound to the field declared just before it, under the type whose
 * `type … {` opening precedes it. withAST passes the joined schema text
 * through a caller-supplied conversion.
 *
 * Resolver maps are keyed by `Option<string>`: `None` stands for JavaScript's
 * `null` (no type opened yet, or no field line found), which an object
 * literal turns into the property name "null".
 */
module Extract {
  import opened Wrappers
  import opened JsText
  import opened FieldNames
  import opened TypeNames
  import opened Concat

  /** `{ [typeName]: { [fieldName]: resolver } }`. */
  type ResolverMap<R> = map<Option<string>, map<Option<string>, R>>

  /** The accumulator of the `reduce`: the map so far and the type of the
      previous resolver. */
  datatype Carry<R> = Carry(resolvers: ResolverMap<R>, lastTypeName: Option<string>)

  /** A `TypeError` thrown while reading the fragment before resolver `position`. */
  datatype BindError = BindError(position: nat, fault: Fault)

  /** What extract returns: the resolver map and the type definitions. */
  datatype Module<R, D> = Module(resolvers: ResolverMap<R>, typeDefs: D)

  // ---------------------------------------------------------------------------
  // One step of the fold

  /** `{ ...m, [t]: { ...(m[t] || {}), [f]: r } }`. */
  function Upsert<R>(m: ResolverMap<R>, t: Option<string>, f: Option<string>, r: R): ResolverMap<R> {
    m[t := (if t in m then m[t] else map[])[f := r]]
  }

  /** The upsert adds type `t` and field `f` under it, binds `r` there, and
      keeps every other field of `t` and every other type. */
  lemma UpsertKeepsOthers<R>(m: ResolverMap<R>, t: Option<string>, f: Option<string>, r: R)
    ensures var m' := Upsert(m, t, f, r);
            && m'.Keys == m.Keys + {t}
            && m'[t].Keys == (if t in m then m[t].Keys else {}) + {f}
            && m'[t][f] == r
            && (forall f' :: f' in m'[t] && f' != f ==> m'[t][f'] == m[t][f'])
            && (forall t' :: t' in m && t' != t ==> m'[t'] == m[t'])
  {
  }

  /** A later binding to the same type and field replaces the earlier one. */
  lemma UpsertLastWriteWins<R>(m: ResolverMap<R>, t: Option<string>, f: Option<string>, r1: R, r2: R)
    ensures Upsert(Upsert(m, t, f, r1), t, f, r2) == Upsert(m, t, f, r2)
  {
    var a := Upsert(Upsert(m, t, f, r1), t, f, r2);
    var b := Upsert(m, t, f, r2);
    assert a[t] == b[t];
  }

  /** What is read from the fragment before a resolver. */
  datatype Reading = Reading(field: Option<string>, typeName: Option<string>)

  /** `getFieldName(definitions[key])`, then `getTypeName(definitions[key])`:
      the first of them that throws decides the error. */
  function ReadFragment(fragment: string): Result<Reading, Fault> {
    match GetFieldName(fragment)
    case Err(f) => Err(f)
    case Ok(field) =>
      match GetTypeName(fragment)
      case Err(f) => Err(f)
      case Ok(typeName) => Ok(Reading(field, typeName))
  }

  /** The reducer with the fragment reader `read` as a parameter: a fragment
      that opens no type keeps the previous type (`|| acc.lastTypeName`). */
  function Step<R>(read: string -> Result<Reading, Fault>, acc: Carry<R>, fragment: string, resolver: R, key: nat)
    : Result<Carry<R>, BindError>
  {
    match read(fragment)
    case Err(f) => Err(BindError(key, f))
    case Ok(reading) =>
      var typeName := if reading.typeName.Some? then reading.typeName else acc.lastTypeName;
      Ok(Carry(Upsert(acc.resolvers, typeName, reading.field, resolver), typeName))
  }

  // ---------------------------------------------------------------------------
  // The fold

  /** The `reduce` over the first `n` resolvers: resolver `k` is read with
      fragment `k`, and the fold stops at the first fragment that throws. */
  function Bind<R>(read: string -> Result<Reading, Fault>, fragments: seq<string>, resolvers: seq<R>, n: nat)
    : Result<Carry<R>, BindError>
    requires n <= |resolvers| <= |fragments|
  {
    if n == 0 then Ok(Carry(map[], None))
    else match Bind(read, fragments, resolvers, n - 1)
      case Err(e) => Err(e)
      case Ok(acc) => Step(read, acc, fragments[n - 1], resolvers[n - 1], n - 1)
  }

  /** The fold succeeds exactly when each of the first `n` fragments reads,
      and otherwise fails with the first fragment that does not. */
  lemma {:induction false} BindOutcome<R>(read: string -> Result<Reading, Fault>, fragments: seq<string>, resolvers: seq<R>, n: nat)
    requires n <= |resolvers| <= |fragments|
    ensures Bind(read, fragments, resolvers, n).Ok? <==> forall k: nat :: k < n ==> read(fragments[k]).Ok?
    ensures var r := Bind(read, fragments, resolvers, n);
            r.Err? ==>
              r.error.position < n && read(fragments[r.error.position]) == Err(r.error.fault)
              && forall k: nat :: k < r.error.position ==> read(fragments[k]).Ok?
  {
    if n > 0 {
      BindOutcome(read, fragments, resolvers, n - 1);
    }
  }

  /** The fragment reads without error and opens a type. */
  ghost predicate OpensType(read: string -> Result<Reading, Fault>, fragment: string) {
    read(fragment).Ok? && read(fragment).value.typeName.Some?
  }

  /** The nearest fragment at or before `k` that opens a type. */
  ghost function LastOpener(read: string -> Result<Reading, Fault>, fragments: seq<string>, k: nat): (r: Option<nat>)
    requires k < |fragments|
    ensures r.Some? ==> r.value <= k && OpensType(read, fragments[r.value])
  {
    if OpensType(read, fragments[k]) then Some(k)
    else if k == 0 then None
    else LastOpener(read, fragments, k - 1)
  }

  /** The type resolver `k` is bound under: the one its last opener opens, or
      `None` when there is none. */
  ghost function TypeOf(read: string -> Result<Reading, Fault>, fragments: seq<string>, k: nat): Option<string>
    requires k < |fragments|
  {
    match LastOpener(read, fragments, k)
    case None => None
    case Some(j) => read(fragments[j]).value.typeName
  }

  /** The last opener is the nearest: no fragment after it, up to `k`, opens a
      type, and there is none only when no fragment up to `k` opens one. */
  lemma {:induction false} LastOpenerIsNearest(read: string -> Result<Reading, Fault>, fragments: seq<string>, k: nat)
    requires k < |fragments|
    ensures LastOpener(read, fragments, k).None? <==> forall j: nat :: j <= k ==> !OpensType(read, fragments[j])
    ensures LastOpener(read, fragments, k).Some? ==>
              var j := LastOpener(read, fragments, k).value;
              j <= k && OpensType(read, fragments[j]) && forall i: nat :: j < i <= k ==> !OpensType(read, fragments[i])
  {
    if !OpensType(read, fragments[k]) && k > 0 {
      LastOpenerIsNearest(read, fragments, k - 1);
    }
  }

  /** Carry-forward: resolver `k` is bound under the type opened by the nearest
      fragment at or before `k` that opens one, and under `None` (the initial
      `null`) when no fragment up to `k` opens one. */
  lemma TypeOfIsNearestOpening(read: string -> Result<Reading, Fault>, fragments: seq<string>, k: nat)
    requires k < |fragments|
    ensures TypeOf(read, fragments, k).None? <==> forall j: nat :: j <= k ==> !OpensType(read, fragments[j])
    ensures TypeOf(read, fragments, k).Some? ==>
              exists j: nat :: j <= k && OpensType(read, fragments[j])
                               && read(fragments[j]).value.typeName == TypeOf(read, fragments, k)
                               && forall i: nat :: j < i <= k ==> !OpensType(read, fragments[i])
  {
    LastOpenerIsNearest(read, fragments, k);
  }

  /** The field name read from fragment `k`. */
  ghost function FieldOf(read: string -> Result<Reading, Fault>, fragments: seq<string>, k: nat): Option<string>
    requires k < |fragments| && read(fragments[k]).Ok?
  {
    read(fragments[k]).value.field
  }

  /** Resolver `k` is bound at type `t`, field `f`. */
  ghost predicate BoundAt(read: string -> Result<Reading, Fault>, fragments: seq<string>, k: nat, t: Option<string>, f: Option<string>)
    requires k < |fragments| && read(fragments[k]).Ok?
  {
    TypeOf(read, fragments, k) == t && FieldOf(read, fragments, k) == f
  }

  /** All of the first `n` fragments read without error. */
  ghost predicate AllRead(read: string -> Result<Reading, Fault>, fragments: seq<string>, n: nat) {
    n <= |fragments| && forall i :: 0 <= i < n ==> read(fragments[i]).Ok?
  }

  /** The last of the first `n` resolvers bound at type `t`, field `f`. */
  ghost function LastBinding(read: string -> Result<Reading, Fault>, fragments: seq<string>, n: nat, t: Option<string>, f: Option<string>)
    : (r: Option<nat>)
    requires AllRead(read, fragments, n)
    ensures r.Some? ==> r.value < n && BoundAt(read, fragments, r.value, t, f)
  {
    if n == 0 then None
    else if BoundAt(read, fragments, n - 1, t, f) then Some(n - 1)
    else LastBinding(read, fragments, n - 1, t, f)
  }

  /** Some of the first `n` resolvers is bound under type `t`. */
  ghost predicate BindsType(read: string -> Result<Reading, Fault>, fragments: seq<string>, n: nat, t: Option<string>)
    requires n <= |fragments|
  {
    n > 0 && (TypeOf(read, fragments, n - 1) == t || BindsType(read, fragments, n - 1, t))
  }

  /** `LastBinding` is the last: no later resolver below `n` is bound at the
      same place, and there is none only if no resolver below `n` is. */
  lemma {:induction false} LastBindingIsLast(read: string -> Result<Reading, Fault>, fragments: seq<string>, n: nat,
                                              t: Option<string>, f: Option<string>)
    requires AllRead(read, fragments, n)
    ensures LastBinding(read, fragments, n, t, f).None? <==>
              forall k: nat :: k < n ==> !BoundAt(read, fragments, k, t, f)
    ensures LastBinding(read, fragments, n, t, f).Some? ==>
              forall k: nat :: LastBinding(read, fragments, n, t, f).value < k < n ==> !BoundAt(read, fragments, k, t, f)
  {
    if n > 0 && !BoundAt(read, fragments, n - 1, t, f) {
      LastBindingIsLast(read, fragments, n - 1, t, f);
    }
  }

  /** `m` is the map the first `n` resolvers build: its types are those some
      resolver is bound under, its entries the places some resolver is bound
      at, and each entry holds the last resolver bound there. */
  ghost predicate Describes<R>(read: string -> Result<Reading, Fault>, fragments: seq<string>, resolvers: seq<R>, n: nat,
                               m: ResolverMap<R>)
    requires n <= |resolvers| && AllRead(read, fragments, n)
  {
    (forall t :: t in m <==> BindsType(read, fragments, n, t))
    && (forall t, f :: t in m && f in m[t] <==> LastBinding(read, fragments, n, t, f).Some?)
    && (forall t, f :: t in m && f in m[t] ==> m[t][f] == resolvers[LastBinding(read, fragments, n, t, f).value])
  }

  /** The type carried after `n` resolvers is the one resolver `n - 1` was
      bound under. */
  lemma {:induction false} BindCarriesType<R>(read: string -> Result<Reading, Fault>, fragments: seq<string>, resolvers: seq<R>, n: nat)
    requires n <= |resolvers| <= |fragments| && Bind(read, fragments, resolvers, n).Ok?
    ensures Bind(read, fragments, resolvers, n).value.lastTypeName == (if n == 0 then None else TypeOf(read, fragments, n - 1))
  {
    if n > 0 {
      BindCarriesType(read, fragments, resolvers, n - 1);
    }
  }

  /** The fold builds the map `Describes` states. */
  lemma {:induction false} BindingIsLastWrite<R>(read: string -> Result<Reading, Fault>, fragments: seq<string>, resolvers: seq<R>, n: nat)
    requires n <= |resolvers| <= |fragments| && Bind(read, fragments, resolvers, n).Ok?
    ensures AllRead(read, fragments, n)
    ensures Describes(read, fragments, resolvers, n, Bind(read, fragments, resolvers, n).value.resolvers)
  {
    if n > 0 {
      BindingIsLastWrite(read, fragments, resolvers, n - 1);
      BindCarriesType(read, fragments, resolvers, n - 1);
      var m := Bind(read, fragments, resolvers, n - 1).value.resolvers;
      var m' := Upsert(m, TypeOf(read, fragments, n - 1), FieldOf(read, fragments, n - 1), resolvers[n - 1]);
      assert Bind(read, fragments, resolvers, n).value.resolvers == m';
      UpsertDescribes(read, fragments, resolvers, n, m, m');
    }
  }

  lemma UpsertDescribes<R>(read: string -> Result<Reading, Fault>, fragments: seq<string>, resolvers: seq<R>, n: nat,
                           m: ResolverMap<R>, m': ResolverMap<R>)
    requires 0 < n <= |resolvers| && AllRead(read, fragments, n)
    requires Describes(read, fragments, resolvers, n - 1, m)
    requires m' == Upsert(m, TypeOf(read, fragments, n - 1), FieldOf(read, fragments, n - 1), resolvers[n - 1])
    ensures Describes(read, fragments, resolvers, n, m')
  {
    var t0, f0 := TypeOf(read, fragments, n - 1), FieldOf(read, fragments, n - 1);
    UpsertKeepsOthers(m, t0, f0, resolvers[n - 1]);
    forall t, f
      ensures t in m' && f in m'[t] <==> LastBinding(read, fragments, n, t, f).Some?
      ensures t in m' && f in m'[t] ==> m'[t][f] == resolvers[LastBinding(read, fragments, n, t, f).value]
    {
      if t == t0 && f == f0 {
        assert BoundAt(read, fragments, n - 1, t, f);
      } else {
        assert !BoundAt(read, fragments, n - 1, t, f);
        assert LastBinding(read, fragments, n, t, f) == LastBinding(read, fragments, n - 1, t, f);
        if t == t0 {
          assert f in m'[t] <==> t in m && f in m[t];
          assert t in m && f in m[t] ==> m'[t][f] == m[t][f];
        } else {
          assert t in m' <==> t in m;
        }
      }
    }
  }

  /** Resolver `k` is bound from fragment `k` alone: unless a later resolver is
      bound at the same place, the map holds resolver `k` itself under the type
      and field read for it. */
  lemma ResolverBoundFromItsFragment<R>(read: string -> Result<Reading, Fault>, fragments: seq<string>, resolvers: seq<R>,
                                       n: nat, k: nat)
    requires n <= |resolvers| <= |fragments| && AllRead(read, fragments, n) && k < n
    requires forall k': nat :: k < k' < n ==>
               !BoundAt(read, fragments, k', TypeOf(read, fragments, k), FieldOf(read, fragments, k))
    ensures Bind(read, fragments, resolvers, n).Ok?
    ensures var m := Bind(read, fragments, resolvers, n).value.resolvers;
            var t, f := TypeOf(read, fragments, k), FieldOf(read, fragments, k);
            t in m && f in m[t] && m[t][f] == resolvers[k]
  {
    BindOutcome(read, fragments, resolvers, n);
    BindingIsLastWrite(read, fragments, resolvers, n);
    var t, f := TypeOf(read, fragments, k), FieldOf(read, fragments, k);
    LastBindingIsLast(read, fragments, n, t, f);
    assert BoundAt(read, fragments, k, t, f);
  }

  /** The first `n` fragments matter to the fold and no later one does. */
  lemma {:induction false} BindReadsOnlyItsFragments<R>(read: string -> Result<Reading, Fault>, fragments: seq<string>,
                                                         more: seq<string>, resolvers: seq<R>, n: nat)
    requires n <= |resolvers| <= |fragments| && |resolvers| <= |more|
    requires forall k: nat :: k < n ==> fragments[k] == more[k]
    ensures Bind(read, fragments, resolvers, n) == Bind(read, more, resolvers, n)
  {
    if n > 0 {
      BindReadsOnlyItsFragments(read, fragments, more, resolvers, n - 1);
      assert fragments[n - 1] == more[n - 1];
    }
  }

  // ---------------------------------------------------------------------------
  // extract and withAST

  /** What a fragment reads as, in terms of the two readers' own contracts:
      the field is null exactly when the field pattern matches nowhere, and
      otherwise stands before the last colon of the leftmost match's line; the
      type is null exactly when no opening exists, and otherwise is the name
      read from the scan's last opening. The field reader's error comes first. */
  lemma ReadFragmentMeaning(fragment: string)
    ensures ReadFragment(fragment).Ok? ==>
              var r := ReadFragment(fragment).value;
              (r.field.None? <==> forall i :: 0 <= i < |fragment| ==> !FieldPatternAt(fragment, i))
              && (r.field.Some? ==> exists i: nat :: LeftmostFieldMatch(fragment, i) && FieldNameAt(fragment, i, r.field.value))
              && (r.typeName.None? <==> forall p :: 0 <= p < |fragment| ==> !OpeningAt(fragment, p))
              && (r.typeName.Some? ==>
                    exists p :: FinalOpening(fragment, p) && NameRead(OpeningText(fragment, p), r.typeName.value))
    ensures ReadFragment(fragment) == Err(NoColonInFieldLine) <==>
              exists i: nat :: LeftmostFieldMatch(fragment, i) && i < |fragment|
                && forall x :: i < x < LineEnd(fragment, i) ==> fragment[x] != ':'
    ensures ReadFragment(fragment) == Err(NoNameInTypeOpening) ==>
              exists p :: FinalOpening(fragment, p) && NoName(OpeningText(fragment, p))
  {
    ReadFragmentField(fragment);
    ReadFragmentType(fragment);
    ReadFragmentFieldError(fragment);
  }

  lemma ReadFragmentField(fragment: string)
    ensures ReadFragment(fragment).Ok? ==>
              var f := ReadFragment(fragment).value.field;
              (f.None? <==> forall i :: 0 <= i < |fragment| ==> !FieldPatternAt(fragment, i))
              && (f.Some? ==> exists i: nat :: LeftmostFieldMatch(fragment, i) && FieldNameAt(fragment, i, f.value))
  {
  }

  lemma ReadFragmentType(fragment: string)
    ensures ReadFragment(fragment).Ok? ==>
              var t := ReadFragment(fragment).value.typeName;
              (t.None? <==> forall p :: 0 <= p < |fragment| ==> !OpeningAt(fragment, p))
              && (t.Some? ==> exists p :: FinalOpening(fragment, p) && NameRead(OpeningText(fragment, p), t.value))
    ensures ReadFragment(fragment) == Err(NoNameInTypeOpening) ==>
              exists p :: FinalOpening(fragment, p) && NoName(OpeningText(fragment, p))
  {
  }

  /** The field reader throws exactly when the leftmost match's line has no
      colon after its first character. */
  lemma ReadFragmentFieldError(fragment: string)
    ensures ReadFragment(fragment) == Err(NoColonInFieldLine) <==>
              exists i: nat :: LeftmostFieldMatch(fragment, i) && i < |fragment|
                && forall x :: i < x < LineEnd(fragment, i) ==> fragment[x] != ':'
  {
    var g := GetFieldName(fragment);
    assert ReadFragment(fragment) == Err(NoColonInFieldLine) <==> g.Err?;
    if g.Ok? && g.value.Some? {
      var i: nat :| LeftmostFieldMatch(fragment, i) && FieldNameAt(fragment, i, g.value.value);
      ColonOnNameLine(fragment, i, g.value.value);
      forall j: nat | LeftmostFieldMatch(fragment, j)
        ensures j == i
      {
      }
    }
  }

  /** extract called as a template tag: `fragments` are the template's strings
      and `resolvers` its interpolated values. It fails as soon as a fragment
      before a resolver makes `getFieldName` or `getTypeName` throw; otherwise
      the map is the one `Describes` states and the type definitions are the
      joined fragments with blank lines removed. */
  function Extract<R>(fragments: seq<string>, resolvers: seq<R>): (r: Result<Module<R, string>, BindError>)
    requires |resolvers| <= |fragments|
    ensures r.Ok? <==> forall k: nat :: k < |resolvers| ==> ReadFragment(fragments[k]).Ok?
    ensures r.Err? ==>
              r.error.position < |resolvers| && ReadFragment(fragments[r.error.position]) == Err(r.error.fault)
              && forall k: nat :: k < r.error.position ==> ReadFragment(fragments[k]).Ok?
    ensures r.Ok? ==>
              AllRead(ReadFragment, fragments, |resolvers|)
              && Describes(ReadFragment, fragments, resolvers, |resolvers|, r.value.resolvers)
              && r.value.typeDefs == ConcatDefinitions(fragments)
    ensures |resolvers| == 0 ==> r == Ok(Module(map[], ConcatDefinitions(fragments)))
  {
    BindOutcome(ReadFragment, fragments, resolvers, |resolvers|);
    match Bind(ReadFragment, fragments, resolvers, |resolvers|)
    case Err(e) => Err(e)
    case Ok(c) =>
      BindingIsLastWrite(ReadFragment, fragments, resolvers, |resolvers|);
      Ok(Module(c.resolvers, ConcatDefinitions(fragments)))
  }

  /** The template's last string, which no resolver follows, and any string
      after it do not change the resolver map. */
  lemma TrailingFragmentsIgnored<R>(fragments: seq<string>, more: seq<string>, resolvers: seq<R>)
    requires |resolvers| <= |fragments| && |resolvers| <= |more|
    requires fragments[..|resolvers|] == more[..|resolvers|]
    ensures Extract(fragments, resolvers).Ok? <==> Extract(more, resolvers).Ok?
    ensures Extract(fragments, resolvers).Ok? ==>
              Extract(fragments, resolvers).value.resolvers == Extract(more, resolvers).value.resolvers
    ensures Extract(fragments, resolvers).Err? ==> Extract(fragments, resolvers).error == Extract(more, resolvers).error
  {
    forall k: nat | k < |resolvers|
      ensures fragments[k] == more[k]
    {
      assert fragments[..|resolvers|][k] == more[..|resolvers|][k];
    }
    BindReadsOnlyItsFragments(ReadFragment, fragments, more, resolvers, |resolvers|);
  }

  /** `withAST(toAST)` applied to a template: extract, then `toAST` on the
      type definitions; an error of extract is passed on before `toAST` runs. */
  function WithAST<R, D>(toAST: string -> D, fragments: seq<string>, resolvers: seq<R>): (r: Result<Module<R, D>, BindError>)
    requires |resolvers| <= |fragments|
    ensures r.Ok? <==> Extract(fragments, resolvers).Ok?
    ensures r.Err? ==> r.error == Extract(fragments, resolvers).error
    ensures r.Ok? ==>
              r.value.resolvers == Extract(fragments, resolvers).value.resolvers
              && r.value.typeDefs == toAST(ConcatDefinitions(fragments))
  {
    match Extract(fragments, resolvers)
    case Err(e) => Err(e)
    case Ok(m) => Ok(Module(m.resolvers, toAST(m.typeDefs)))
  }

  /** The conversion touches only the type definitions: the resolver map and
      any error do not depend on it, and the identity gives extract back. */
  lemma WithASTKeepsResolvers<R, D>(toAST: string -> D, other: string -> D, fragments: seq<string>, resolvers: seq<R>)
    requires |resolvers| <= |fragments|
    ensures WithAST(toAST, fragments, resolvers).Ok? ==>
              WithAST(other, fragments, resolvers).Ok?
              && WithAST(toAST, fragments, resolvers).value.resolvers == WithAST(other, fragments, resolvers).value.resolvers
    ensures WithAST(toAST, fragments, resolvers).Err? ==>
              WithAST(other, fragments, resolvers) == WithAST(toAST, fragments, resolvers)
    ensures WithAST(s => s, fragments, resolvers) == Extract(fragments, resolvers)
  {
  }

  // ---------------------------------------------------------------------------
  // The template with one resolver after `id: ID!`, under `type User {`

  const Indent6 := "      "
  const Indent8 := "        "
  const OpeningLine := Indent6 + "type User {"
  const IdLine := Indent8 + "id: ID!"
  /** The template's string before the resolver. */
  const UserIdHead := "\n" + OpeningLine + "\n" + IdLine + "\n" + Indent8

  lemma UserIdHeadField()
    ensures GetFieldName(UserIdHead) == Ok(Some("id"))
  {
    var pre, rest, tail := "\n" + OpeningLine + "\n", " ID!", "\n" + Indent8;
    assert "id: ID!" == "id" + [':'] + rest;
    assert UserIdHead == pre + Indent8 + "id" + [':'] + rest + tail;
    assert rest[3] == '!';
    FieldNameOfDeclarationLine(UserIdHead, pre, Indent8, "id", rest, tail);
  }

  lemma UserIdHeadType()
    ensures GetTypeName(UserIdHead) == Ok(Some("User"))
  {
    var user, pre, post := "User", "\n" + Indent6, "\n" + IdLine + "\n" + Indent8;
    assert user[0] == 'U' && user[3] == 'r';
    assert PlainName(user);
    assert "type User {" == "type " + user + " {";
    assert UserIdHead == pre + "type " + user + " {" + post;
    assert 'y' !in pre;
    assert '{' !in post;
    TypeNameOfSoleOpening(pre, user, post);
  }

  lemma UserIdHeadReads()
    ensures ReadFragment(UserIdHead) == Ok(Reading(Some("id"), Some("User")))
  {
    UserIdHeadField();
    UserIdHeadType();
  }

  /** `withAST(toAST)` on that template, whatever follows the resolver:
      `User.id` is the resolver, and `toAST` gets the joined strings with the
      blank lines removed. */
  lemma UserIdTemplate<R, D>(toAST: string -> D, userId: R, tail: string)
    ensures WithAST(toAST, [UserIdHead, tail], [userId])
            == Ok(Module(map[Some("User") := map[Some("id") := userId]], toAST(ConcatDefinitions([UserIdHead, tail]))))
  {
    UserIdHeadReads();
    var fragments := [UserIdHead, tail];
    assert Bind(ReadFragment, fragments, [userId], 0) == Ok(Carry(map[], None));
  }

  // ---------------------------------------------------------------------------
  // Carry-forward over two fragments, one opening a type and one not

  /** The declaration after the opening: field `f`. */
  const FLine := "\n f:1\n"
  /** A fragment that opens type `Abc` and declares field `f`. */
  const AbcHead := "type Abc {" + FLine
  /** The same with the one-letter type name `A`. */
  const AHead := "type A {" + FLine
  /** A fragment that declares field `g` and opens no type. */
  const GLine := "\n g:2\n"

  lemma AbcHeadField()
    ensures GetFieldName(AbcHead) == Ok(Some("f"))
  {
    var pre := "type Abc {\n";
    assert AbcHead == pre + " " + "f" + [':'] + "1" + "\n";
    FieldNameOfDeclarationLine(AbcHead, pre, " ", "f", "1", "\n");
  }

  lemma AHeadField()
    ensures GetFieldName(AHead) == Ok(Some("f"))
  {
    var pre := "type A {\n";
    assert AHead == pre + " " + "f" + [':'] + "1" + "\n";
    FieldNameOfDeclarationLine(AHead, pre, " ", "f", "1", "\n");
  }

  lemma GLineField()
    ensures GetFieldName(GLine) == Ok(Some("g"))
  {
    assert GLine == "\n" + " " + "g" + [':'] + "2" + "\n";
    FieldNameOfDeclarationLine(GLine, "\n", " ", "g", "2", "\n");
  }

  lemma AbcHeadType()
    ensures GetTypeName(AbcHead) == Ok(Some("Abc"))
  {
    var abc := "Abc";
    assert abc[0] == 'A' && abc[2] == 'c';
    assert PlainName(abc);
    assert AbcHead == [] + "type " + abc + " {" + FLine;
    TypeNameOfSoleOpening([], abc, FLine);
  }

  lemma AHeadType()
    ensures GetTypeName(AHead) == Err(NoNameInTypeOpening)
  {
    assert AHead == "type " + "A" + " {" + FLine;
    ShortNameFails("A", FLine);
  }

  lemma GLineType()
    ensures GetTypeName(GLine) == Ok(None)
  {
    NoBraceNoTypeName(GLine);
  }

  lemma GLineReads()
    ensures ReadFragment(GLine) == Ok(Reading(Some("g"), None))
  {
    GLineField();
    GLineType();
  }

  lemma AbcHeadReads()
    ensures ReadFragment(AbcHead) == Ok(Reading(Some("f"), Some("Abc")))
  {
    AbcHeadField();
    AbcHeadType();
  }

  lemma AHeadReads()
    ensures ReadFragment(AHead) == Err(NoNameInTypeOpening)
  {
    AHeadField();
    AHeadType();
  }

  /** The fold over two fragments when the second opens no type. */
  lemma BindTwo<R>(read: string -> Result<Reading, Fault>, f0: string, f1: string, t: string,
                   a: Option<string>, b: Option<string>, r1: R, r2: R)
    requires read(f0) == Ok(Reading(a, Some(t))) && read(f1) == Ok(Reading(b, None))
    ensures Bind(read, [f0, f1], [r1, r2], 2) == Ok(Carry(map[Some(t) := map[a := r1][b := r2]], Some(t)))
  {
    var fragments, resolvers := [f0, f1], [r1, r2];
    var m1 := Upsert(map[], Some(t), a, r1);
    assert Bind(read, fragments, resolvers, 0) == Ok(Carry(map[], None));
    assert Bind(read, fragments, resolvers, 1) == Ok(Carry(m1, Some(t)));
    assert Upsert(m1, Some(t), b, r2) == map[Some(t) := map[a := r1][b := r2]];
  }

  /** Carry-forward over two fragments: the second opens no type, so its
      resolver joins the type the first opens. */
  lemma CarryForwardOverTwo<R>(f0: string, f1: string, t: string, a: Option<string>, b: Option<string>, r1: R, r2: R)
    requires ReadFragment(f0) == Ok(Reading(a, Some(t))) && ReadFragment(f1) == Ok(Reading(b, None))
    ensures Extract([f0, f1], [r1, r2]) == Ok(Module(map[Some(t) := map[a := r1][b := r2]], ConcatDefinitions([f0, f1])))
  {
    BindTwo(ReadFragment, f0, f1, t, a, b, r1, r2);
  }

  /** A fragment before the first resolver that throws makes extract throw at once. */
  lemma FirstFragmentThrows<R>(fragments: seq<string>, resolvers: seq<R>, f: Fault)
    requires 0 < |resolvers| <= |fragments| && ReadFragment(fragments[0]) == Err(f)
    ensures Extract(fragments, resolvers) == Err(BindError(0, f))
  {
  }

  /** The second resolver inherits the type `Abc` the first fragment opens. */
  lemma CarryForwardExample<R>(r1: R, r2: R)
    ensures Extract([AbcHead, GLine], [r1, r2])
            == Ok(Module(map[Some("Abc") := map[Some("f") := r1, Some("g") := r2]], ConcatDefinitions([AbcHead, GLine])))
  {
    AbcHeadReads();
    GLineReads();
    CarryForwardOverTwo(AbcHead, GLine, "Abc", Some("f"), Some("g"), r1, r2);
  }

  /** With the one-letter type name `A` the first fragment throws: `getTypeName`
      finds no name in `type A {`. */
  lemma OneLetterTypeThrows<R>(r1: R, r2: R)
    ensures Extract([AHead, GLine], [r1, r2]) == Err(BindError(0, NoNameInTypeOpening))
  {
    AHeadReads();
    FirstFragmentThrows([AHead, GLine], [r1, r2], NoNameInTypeOpening);
  }
}
