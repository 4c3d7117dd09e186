/**
 * The rewriting of a tool's output schema: which schemas describe objects, where the
 * `database` member is injected, and what injection leaves alone. `PayloadAgreement` sets it
 * against the rewriting of payloads.
 */
module OutputSchema {
  import opened Wrappers
  import opened JsonSchema

  /** The schema of the injected `database` member; its description does not constrain it. */
  const DATABASE_FIELD := EMPTY.(typ := Some(One(StringType)))

  /** The conjunct appended to an `allOf` that has no `properties` beside it. */
  const DATABASE_CONJUNCT := OBJECT.(properties := Some(map["database" := DATABASE_FIELD]))

  /** An output schema: the wrap marker, `$defs`, and the remaining keywords. */
  datatype Document = Document(wrapped: bool, env: Env, body: Schema)

  // ---- Which schemas describe objects -------------------------------------------------

  /** `_schema_yields_object`; it terminates because ranks go down along `$ref`. */
  predicate YieldsObject(env: Env, s: Schema)
    requires Acyclic(env)
    decreases RankOf(env.rank, s), s
  {
    match s
    case Always(_) => false
    case Keywords(typ, _, properties, _, _, _, ref, anyOf, oneOf, allOf) =>
      if typ == Some(One(ObjectType)) then true
      else if properties.Some? && typ.None? then true
      else if DefName(ref).Some? then
        var name := DefName(ref).value;
        name in env.defs && YieldsObject(env, env.defs[name])
      else if anyOf.Present? && anyOf.list != [] then AllYield(env, anyOf.list)
      else if oneOf.Present? && oneOf.list != [] then AllYield(env, oneOf.list)
      else if allOf.Present? then SomeYields(env, allOf.list)
      else false
  }

  predicate AllYield(env: Env, ss: seq<Schema>)
    requires Acyclic(env)
    decreases RanksOf(env.rank, ss), ss
  {
    ss == [] || (YieldsObject(env, ss[0]) && AllYield(env, ss[1..]))
  }

  predicate SomeYields(env: Env, ss: seq<Schema>)
    requires Acyclic(env)
    decreases RanksOf(env.rank, ss), ss
  {
    ss != [] && (YieldsObject(env, ss[0]) || SomeYields(env, ss[1..]))
  }

  /** Every schema applied in place that lists `properties` also gives a `type`. */
  ghost predicate Typed(s: Schema)
    decreases s
  {
    s.Keywords? ==>
      && (s.properties.Some? ==> s.typ.Some?)
      && (s.anyOf.Present? ==> AllTyped(s.anyOf.list))
      && (s.oneOf.Present? ==> AllTyped(s.oneOf.list))
      && (s.allOf.Present? ==> AllTyped(s.allOf.list))
  }

  ghost predicate AllTyped(ss: seq<Schema>)
    decreases ss
  {
    ss == [] || (Typed(ss[0]) && AllTyped(ss[1..]))
  }

  /** References are acyclic and no definition leaves its `type` implicit. */
  ghost predicate WellFormed(env: Env) {
    Acyclic(env) && forall n | n in env.defs :: Typed(env.defs[n])
  }

  /** Whatever validates against a schema that passes the check is an object. */
  lemma {:induction false} YieldsObjectIsSound(env: Env, s: Schema, v: Json)
    requires WellFormed(env) && Typed(s)
    requires YieldsObject(env, s) && Valid(env, s, v)
    ensures v.Object?
    decreases RankOf(env.rank, s), s
  {
    if s.typ == Some(One(ObjectType)) {
    } else if DefName(s.ref).Some? {
      PointerTargetIsDefName(s.ref.value);
      YieldsObjectIsSound(env, env.defs[DefName(s.ref).value], v);
    } else if s.anyOf.Present? && s.anyOf.list != [] {
      AllYieldIsSound(env, s.anyOf.list, v);
    } else if s.oneOf.Present? && s.oneOf.list != [] {
      AllYieldIsSound(env, s.oneOf.list, v);
    } else {
      SomeYieldsIsSound(env, s.allOf.list, v);
    }
  }

  lemma {:induction false} AllYieldIsSound(env: Env, ss: seq<Schema>, v: Json)
    requires WellFormed(env) && AllTyped(ss)
    requires AllYield(env, ss) && CountValid(env, ss, v) >= 1
    ensures v.Object?
    decreases RanksOf(env.rank, ss), ss
  {
    if Valid(env, ss[0], v) {
      YieldsObjectIsSound(env, ss[0], v);
    } else {
      AllYieldIsSound(env, ss[1..], v);
    }
  }

  lemma {:induction false} SomeYieldsIsSound(env: Env, ss: seq<Schema>, v: Json)
    requires WellFormed(env) && AllTyped(ss)
    requires SomeYields(env, ss) && CountValid(env, ss, v) == |ss|
    ensures v.Object?
    decreases RanksOf(env.rank, ss), ss
  {
    if YieldsObject(env, ss[0]) {
      YieldsObjectIsSound(env, ss[0], v);
    } else {
      SomeYieldsIsSound(env, ss[1..], v);
    }
  }

  /** The keywords of a schema that can tell values other than objects apart. */
  function OffObjects(s: Schema): Schema
    requires s.Keywords?
  {
    s.(properties := None, required := {}, additional := None)
  }

  /**
   * `Typed` is needed: a schema that lists `properties` without a type passes the check, and it
   * is wrong about a value that is no object exactly when the remaining keywords accept that.
   */
  lemma ImplicitObjectExact(env: Env, s: Schema, v: Json)
    requires Acyclic(env) && s.Keywords? && s.properties.Some? && s.typ.None?
    requires !v.Object?
    ensures YieldsObject(env, s)
    ensures Valid(env, s, v) <==> Valid(env, OffObjects(s), v)
    ensures OffObjects(s) == EMPTY ==> Valid(env, s, v)
  {
    var t := OffObjects(s);
    assert RankOf(env.rank, t) == RankOf(env.rank, s);
    assert RefValid(env, t, v) == RefValid(env, s, v);
    assert BranchesValid(env, t, v) == BranchesValid(env, s, v);
    if v.Array? {
      assert ElementsValid(env, t, v) == ElementsValid(env, s, v);
    }
  }

  // ---- Injection ----------------------------------------------------------------------

  /** `_inject_database_field`. */
  function Inject(s: Schema): (r: Schema)
    requires s.Keywords?
    ensures r.Keywords?
    decreases s
  {
    if s.properties.Some? then s.(properties := Some(s.properties.value["database" := DATABASE_FIELD]))
    else if s.typ == Some(One(ObjectType)) then s.(properties := Some(map["database" := DATABASE_FIELD]))
    else if s.anyOf.Present? && s.anyOf.list != [] then s.(anyOf := Present(InjectInline(s.anyOf.list)))
    else if s.oneOf.Present? && s.oneOf.list != [] then s.(oneOf := Present(InjectInline(s.oneOf.list)))
    else if s.allOf.Present? then s.(allOf := Present(s.allOf.list + [DATABASE_CONJUNCT]))
    else s
  }

  /** Inline variants are injected into; references and boolean schemas are left alone. */
  function InjectInline(ss: seq<Schema>): (r: seq<Schema>)
    ensures |r| == |ss|
    decreases ss
  {
    if ss == [] then []
    else [if ss[0].Keywords? && ss[0].ref.None? then Inject(ss[0]) else ss[0]] + InjectInline(ss[1..])
  }

  lemma {:induction false} InjectKeepsRank(rank: map<string, nat>, s: Schema)
    requires s.Keywords?
    ensures RankOf(rank, Inject(s)) == RankOf(rank, s)
    decreases s
  {
    if s.properties.Some? || s.typ == Some(One(ObjectType)) {
    } else if s.anyOf.Present? && s.anyOf.list != [] {
      InjectInlineKeepsRank(rank, s.anyOf.list);
    } else if s.oneOf.Present? && s.oneOf.list != [] {
      InjectInlineKeepsRank(rank, s.oneOf.list);
    } else if s.allOf.Present? {
      RanksAppend(rank, s.allOf.list, DATABASE_CONJUNCT);
      assert RankOf(rank, DATABASE_CONJUNCT) == 0;
    }
  }

  lemma {:induction false} InjectInlineKeepsRank(rank: map<string, nat>, ss: seq<Schema>)
    ensures RanksOf(rank, InjectInline(ss)) == RanksOf(rank, ss)
    decreases ss
  {
    if ss != [] {
      if ss[0].Keywords? && ss[0].ref.None? {
        InjectKeepsRank(rank, ss[0]);
      }
      InjectInlineKeepsRank(rank, ss[1..]);
      assert InjectInline(ss)[1..] == InjectInline(ss[1..]);
    }
  }

  lemma {:induction false} InjectKeepsTyped(s: Schema)
    requires s.Keywords? && Typed(s)
    ensures Typed(Inject(s))
    decreases s
  {
    if s.properties.Some? || s.typ == Some(One(ObjectType)) {
    } else if s.anyOf.Present? && s.anyOf.list != [] {
      InjectInlineKeepsTyped(s.anyOf.list);
    } else if s.oneOf.Present? && s.oneOf.list != [] {
      InjectInlineKeepsTyped(s.oneOf.list);
    } else if s.allOf.Present? {
      assert Typed(DATABASE_CONJUNCT);
      TypedAppend(s.allOf.list, DATABASE_CONJUNCT);
    }
  }

  lemma {:induction false} InjectInlineKeepsTyped(ss: seq<Schema>)
    requires AllTyped(ss)
    ensures AllTyped(InjectInline(ss))
    decreases ss
  {
    if ss != [] {
      if ss[0].Keywords? && ss[0].ref.None? {
        InjectKeepsTyped(ss[0]);
      }
      InjectInlineKeepsTyped(ss[1..]);
      assert InjectInline(ss)[1..] == InjectInline(ss[1..]);
    }
  }

  lemma {:induction false} TypedAppend(ss: seq<Schema>, t: Schema)
    requires AllTyped(ss) && Typed(t)
    ensures AllTyped(ss + [t])
  {
    if ss == [] {
      assert ss + [t] == [t];
    } else {
      TypedAppend(ss[1..], t);
      assert (ss + [t])[1..] == ss[1..] + [t];
    }
  }

  lemma {:induction false} InjectKeepsYieldsObject(env: Env, s: Schema)
    requires Acyclic(env) && s.Keywords? && YieldsObject(env, s)
    ensures YieldsObject(env, Inject(s))
    decreases s
  {
    if s.properties.Some? || s.typ == Some(One(ObjectType)) || DefName(s.ref).Some? {
    } else if s.anyOf.Present? && s.anyOf.list != [] {
      InjectInlineKeepsYieldsObject(env, s.anyOf.list);
    } else if s.oneOf.Present? && s.oneOf.list != [] {
      InjectInlineKeepsYieldsObject(env, s.oneOf.list);
    } else {
      SomeYieldsAppend(env, s.allOf.list, DATABASE_CONJUNCT);
    }
  }

  lemma {:induction false} InjectInlineKeepsYieldsObject(env: Env, ss: seq<Schema>)
    requires Acyclic(env) && AllYield(env, ss)
    ensures AllYield(env, InjectInline(ss))
    decreases ss
  {
    if ss != [] {
      if ss[0].Keywords? && ss[0].ref.None? {
        InjectKeepsYieldsObject(env, ss[0]);
      }
      InjectInlineKeepsYieldsObject(env, ss[1..]);
      assert InjectInline(ss)[1..] == InjectInline(ss[1..]);
    }
  }

  lemma {:induction false} SomeYieldsAppend(env: Env, ss: seq<Schema>, t: Schema)
    requires Acyclic(env) && SomeYields(env, ss)
    ensures SomeYields(env, ss + [t])
  {
    assert (ss + [t])[1..] == ss[1..] + [t];
    if !YieldsObject(env, ss[0]) {
      SomeYieldsAppend(env, ss[1..], t);
    }
  }

  // ---- Injection does not disturb values that have no `database` -------------------------

  /** On an object without `database`, a schema and its injected form agree. */
  lemma {:induction false} InjectAgreesOnObjects(env: Env, s: Schema, v: Json)
    requires s.Keywords? && v.Object? && "database" !in v.fields
    ensures Valid(env, Inject(s), v) == Valid(env, s, v)
    decreases s
  {
    InjectKeepsRank(env.rank, s);
    if s.properties.Some? || s.typ == Some(One(ObjectType)) {
      ExtraPropertyAgrees(env, s, v);
    } else if s.anyOf.Present? && s.anyOf.list != [] {
      InjectInlineAgreesOnObjects(env, s.anyOf.list, v);
      SameBranches(env, s, Inject(s), v);
    } else if s.oneOf.Present? && s.oneOf.list != [] {
      InjectInlineAgreesOnObjects(env, s.oneOf.list, v);
      SameBranches(env, s, Inject(s), v);
    } else if s.allOf.Present? {
      ConjunctAccepts(env, v);
      CountAppend(env, s.allOf.list, DATABASE_CONJUNCT, v);
      SameBranches(env, s, Inject(s), v);
    }
  }

  /** Two lists under the same composition keyword, as far as `v` can tell. */
  ghost predicate SameCount(env: Env, b: Branches, c: Branches, v: Json) {
    && b.Present? == c.Present?
    && (b.Present? ==> |c.list| - CountValid(env, c.list, v) == |b.list| - CountValid(env, b.list, v))
  }

  lemma SameBranches(env: Env, s: Schema, t: Schema, v: Json)
    requires s.Keywords? && t.Keywords?
    requires t.(anyOf := s.anyOf, oneOf := s.oneOf, allOf := s.allOf) == s
    requires RankOf(env.rank, t) == RankOf(env.rank, s)
    requires SameCount(env, s.anyOf, t.anyOf, v) && SameCount(env, s.oneOf, t.oneOf, v)
    requires SameCount(env, s.allOf, t.allOf, v)
    requires s.anyOf.Present? ==> |t.anyOf.list| == |s.anyOf.list|
    requires s.oneOf.Present? ==> |t.oneOf.list| == |s.oneOf.list|
    ensures Valid(env, t, v) == Valid(env, s, v)
  {
    assert BranchesValid(env, t, v) == BranchesValid(env, s, v);
    if v.Object? {
      assert forall k | k in v.fields :: FieldSchema(t, k) == FieldSchema(s, k);
      assert FieldsValid(env, t, v) == FieldsValid(env, s, v);
    }
  }

  lemma ExtraPropertyAgrees(env: Env, s: Schema, v: Json)
    requires s.Keywords? && v.Object? && "database" !in v.fields
    requires s.properties.Some? || s.typ == Some(One(ObjectType))
    ensures Valid(env, Inject(s), v) == Valid(env, s, v)
  {
    InjectKeepsRank(env.rank, s);
    assert forall k | k in v.fields :: FieldSchema(Inject(s), k) == FieldSchema(s, k);
  }

  lemma ConjunctAccepts(env: Env, v: Json)
    requires v.Object? && "database" !in v.fields
    ensures Valid(env, DATABASE_CONJUNCT, v)
  {
    assert forall k | k in v.fields :: FieldSchema(DATABASE_CONJUNCT, k) == Always(true);
  }

  lemma {:induction false} InjectInlineAgreesOnObjects(env: Env, ss: seq<Schema>, v: Json)
    requires v.Object? && "database" !in v.fields
    ensures CountValid(env, InjectInline(ss), v) == CountValid(env, ss, v)
    decreases ss
  {
    if ss != [] {
      if ss[0].Keywords? && ss[0].ref.None? {
        InjectAgreesOnObjects(env, ss[0], v);
      }
      InjectInlineAgreesOnObjects(env, ss[1..], v);
      assert InjectInline(ss)[1..] == InjectInline(ss[1..]);
    }
  }

  /** A schema that yields objects accepts the same values without `database` once injected. */
  lemma InjectAgrees(env: Env, s: Schema, v: Json)
    requires WellFormed(env) && s.Keywords? && Typed(s) && YieldsObject(env, s)
    requires WithoutDatabase(v)
    ensures Valid(env, Inject(s), v) == Valid(env, s, v)
  {
    if v.Object? {
      InjectAgreesOnObjects(env, s, v);
    } else {
      if Valid(env, s, v) {
        YieldsObjectIsSound(env, s, v);
      }
      InjectKeepsTyped(s);
      InjectKeepsYieldsObject(env, s);
      if Valid(env, Inject(s), v) {
        YieldsObjectIsSound(env, Inject(s), v);
      }
    }
  }

  // ---- Injecting into a definition does not disturb its other uses -------------------------

  /** The document after `_inject_database_field` has run on definition `n`. */
  function InjectDef(env: Env, n: string): Env
    requires n in env.defs && env.defs[n].Keywords?
  {
    env.(defs := env.defs[n := Inject(env.defs[n])])
  }

  lemma InjectDefKeepsWellFormed(env: Env, n: string)
    requires WellFormed(env) && n in env.defs && env.defs[n].Keywords?
    ensures WellFormed(InjectDef(env, n))
  {
    InjectKeepsRank(env.rank, env.defs[n]);
    InjectKeepsTyped(env.defs[n]);
  }

  lemma {:induction false} InjectDefKeepsYieldsObject(env: Env, n: string, s: Schema)
    requires WellFormed(env) && n in env.defs && env.defs[n].Keywords?
    requires WellFormed(InjectDef(env, n))
    requires YieldsObject(env, s)
    ensures YieldsObject(InjectDef(env, n), s)
    decreases RankOf(env.rank, s), s
  {
    if s.typ == Some(One(ObjectType)) || (s.properties.Some? && s.typ.None?) {
    } else if DefName(s.ref).Some? {
      var name := DefName(s.ref).value;
      InjectDefKeepsYieldsObject(env, n, env.defs[name]);
      if name == n {
        InjectKeepsYieldsObject(InjectDef(env, n), env.defs[n]);
      }
    } else if s.anyOf.Present? && s.anyOf.list != [] {
      InjectDefKeepsAllYield(env, n, s.anyOf.list);
    } else if s.oneOf.Present? && s.oneOf.list != [] {
      InjectDefKeepsAllYield(env, n, s.oneOf.list);
    } else {
      InjectDefKeepsSomeYields(env, n, s.allOf.list);
    }
  }

  lemma {:induction false} InjectDefKeepsAllYield(env: Env, n: string, ss: seq<Schema>)
    requires WellFormed(env) && n in env.defs && env.defs[n].Keywords?
    requires WellFormed(InjectDef(env, n))
    requires AllYield(env, ss)
    ensures AllYield(InjectDef(env, n), ss)
    decreases RanksOf(env.rank, ss), ss
  {
    if ss != [] {
      InjectDefKeepsYieldsObject(env, n, ss[0]);
      InjectDefKeepsAllYield(env, n, ss[1..]);
    }
  }

  lemma {:induction false} InjectDefKeepsSomeYields(env: Env, n: string, ss: seq<Schema>)
    requires WellFormed(env) && n in env.defs && env.defs[n].Keywords?
    requires WellFormed(InjectDef(env, n))
    requires SomeYields(env, ss)
    ensures SomeYields(InjectDef(env, n), ss)
    decreases RanksOf(env.rank, ss), ss
  {
    if YieldsObject(env, ss[0]) {
      InjectDefKeepsYieldsObject(env, n, ss[0]);
    } else {
      InjectDefKeepsSomeYields(env, n, ss[1..]);
    }
  }

  /** Definition `n` may be injected into: it is an object schema of a well-formed document. */
  ghost predicate Injectable(env: Env, n: string) {
    && WellFormed(env)
    && n in env.defs
    && env.defs[n].Keywords?
    && YieldsObject(env, env.defs[n])
  }

  lemma InjectDefKeepsInjectable(env: Env, n: string, m: string)
    requires Injectable(env, n) && Injectable(env, m)
    ensures Injectable(InjectDef(env, n), m)
  {
    InjectDefKeepsWellFormed(env, n);
    InjectDefKeepsYieldsObject(env, n, env.defs[m]);
    if m == n {
      InjectKeepsYieldsObject(InjectDef(env, n), env.defs[n]);
    }
  }

  /** Every schema of the document keeps accepting the same values without `database`. */
  lemma {:induction false} InjectDefAgrees(env: Env, n: string, s: Schema, v: Json)
    requires Injectable(env, n) && WithoutDatabase(v)
    ensures Valid(InjectDef(env, n), s, v) == Valid(env, s, v)
    decreases v, RankOf(env.rank, s), s, 1
  {
    if s.Keywords? {
      RefAgrees(env, n, s, v);
      BranchesAgree(env, n, s, v);
      if v.Object? { FieldsAgree(env, n, s, v); }
      if v.Array? { ElementsAgree(env, n, s, v); }
    }
  }

  lemma {:induction false} BranchesAgree(env: Env, n: string, s: Schema, v: Json)
    requires Injectable(env, n) && WithoutDatabase(v) && s.Keywords?
    ensures BranchesValid(InjectDef(env, n), s, v) == BranchesValid(env, s, v)
    decreases v, RankOf(env.rank, s), s, 0
  {
    if s.anyOf.Present? { CountAgrees(env, n, s.anyOf.list, v); }
    if s.oneOf.Present? { CountAgrees(env, n, s.oneOf.list, v); }
    if s.allOf.Present? { CountAgrees(env, n, s.allOf.list, v); }
  }

  lemma {:induction false} FieldsAgree(env: Env, n: string, s: Schema, v: Json)
    requires Injectable(env, n) && WithoutDatabase(v) && s.Keywords? && v.Object?
    ensures FieldsValid(InjectDef(env, n), s, v) == FieldsValid(env, s, v)
    decreases v, RankOf(env.rank, s), s, 0
  {
    forall k | k in v.fields
      ensures Valid(InjectDef(env, n), FieldSchema(s, k), v.fields[k]) == Valid(env, FieldSchema(s, k), v.fields[k])
    {
      InjectDefAgrees(env, n, FieldSchema(s, k), v.fields[k]);
    }
  }

  lemma {:induction false} ElementsAgree(env: Env, n: string, s: Schema, v: Json)
    requires Injectable(env, n) && WithoutDatabase(v) && s.Keywords? && v.Array?
    ensures ElementsValid(InjectDef(env, n), s, v) == ElementsValid(env, s, v)
    decreases v, RankOf(env.rank, s), s, 0
  {
    if s.items.Some? {
      forall i | 0 <= i < |v.elements|
        ensures Valid(InjectDef(env, n), s.items.value, v.elements[i]) == Valid(env, s.items.value, v.elements[i])
      {
        InjectDefAgrees(env, n, s.items.value, v.elements[i]);
      }
    }
  }

  lemma {:induction false} RefAgrees(env: Env, n: string, s: Schema, v: Json)
    requires Injectable(env, n) && WithoutDatabase(v) && s.Keywords?
    ensures RefValid(InjectDef(env, n), s, v) == RefValid(env, s, v)
    decreases v, RankOf(env.rank, s), s, 0
  {
    InjectKeepsRank(env.rank, env.defs[n]);
    if s.ref.Some? {
      var name := PointerTarget(s.ref.value);
      if name.Some? && name.value in env.defs && RankOf(env.rank, env.defs[name.value]) < RankOf(env.rank, s) {
        InjectDefAgrees(env, n, env.defs[name.value], v);
        if name.value == n {
          InjectDefKeepsWellFormed(env, n);
          InjectDefKeepsYieldsObject(env, n, env.defs[n]);
          InjectAgrees(InjectDef(env, n), env.defs[n], v);
        }
      }
    }
  }

  lemma {:induction false} CountAgrees(env: Env, n: string, ss: seq<Schema>, v: Json)
    requires Injectable(env, n) && WithoutDatabase(v)
    ensures CountValid(InjectDef(env, n), ss, v) == CountValid(env, ss, v)
    decreases v, RanksOf(env.rank, ss), ss, 0
  {
    if ss != [] {
      InjectDefAgrees(env, n, ss[0], v);
      CountAgrees(env, n, ss[1..], v);
    }
  }

  // ---- Schemas open to a `database` member ------------------------------------------------

  /**
   * Adding the member `"database": db` to an object changes no verdict of `s`: the schema of
   * that member takes the string, and the member is not required, here and in every schema
   * applied in place. `UnionAgreement` says what this means
   * for a model with and without injection.
   */
  ghost predicate Open(env: Env, db: string, s: Schema)
    requires Acyclic(env)
    decreases RankOf(env.rank, s), s
  {
    s.Keywords? ==>
      && "database" !in s.required
      && Valid(env, FieldSchema(s, "database"), String(db))
      && (s.enum.Some? ==> forall i | 0 <= i < |s.enum.value| :: !s.enum.value[i].Object?)
      && (DefName(s.ref).Some? ==>
            var name := DefName(s.ref).value;
            name in env.defs ==> Open(env, db, env.defs[name]))
      && (s.anyOf.Present? ==> AllOpen(env, db, s.anyOf.list))
      && (s.oneOf.Present? ==> AllOpen(env, db, s.oneOf.list))
      && (s.allOf.Present? ==> AllOpen(env, db, s.allOf.list))
  }

  ghost predicate AllOpen(env: Env, db: string, ss: seq<Schema>)
    requires Acyclic(env)
    decreases RanksOf(env.rank, ss), ss
  {
    ss == [] || (Open(env, db, ss[0]) && AllOpen(env, db, ss[1..]))
  }

  /** The payload `v` with the database ID added. */
  function WithDatabase(v: Json, db: string): (r: Json)
    requires v.Object?
    ensures r.Object?
  {
    Object(v.fields["database" := String(db)])
  }

  lemma {:induction false} OpenIgnoresDatabase(env: Env, db: string, s: Schema, v: Json)
    requires Acyclic(env) && Open(env, db, s)
    requires v.Object? && "database" !in v.fields
    ensures Valid(env, s, WithDatabase(v, db)) == Valid(env, s, v)
    decreases RankOf(env.rank, s), s, 1
  {
    if s.Keywords? {
      var w := WithDatabase(v, db);
      OpenRef(env, db, s, v);
      OpenBranches(env, db, s, v);
      OpenFields(env, db, s, v);
      if s.enum.Some? {
        assert v !in s.enum.value && w !in s.enum.value;
      }
      assert s.typ.Some? ==> HasSomeType(s.typ.value, w) == HasSomeType(s.typ.value, v) by {
        if s.typ.Some? { ObjectsShareTypes(s.typ.value, v, w); }
      }
    }
  }

  lemma ObjectsShareTypes(k: TypeKeyword, v: Json, w: Json)
    requires v.Object? && w.Object?
    ensures HasSomeType(k, v) == HasSomeType(k, w)
  {
    if k.Several? {
      assert forall i | 0 <= i < |k.ts| :: HasType(k.ts[i], v) == HasType(k.ts[i], w);
    }
  }

  lemma OpenFields(env: Env, db: string, s: Schema, v: Json)
    requires s.Keywords? && v.Object? && "database" !in v.fields && "database" !in s.required
    requires Valid(env, FieldSchema(s, "database"), String(db))
    ensures FieldsValid(env, s, WithDatabase(v, db)) == FieldsValid(env, s, v)
  {
    var w := WithDatabase(v, db);
    assert w.fields.Keys == v.fields.Keys + {"database"};
    assert forall k | k in v.fields :: w.fields[k] == v.fields[k];
    if FieldsValid(env, s, w) {
      forall k | k in v.fields ensures Valid(env, FieldSchema(s, k), v.fields[k]) {
        assert k in w.fields;
      }
    }
  }

  lemma {:induction false} OpenRef(env: Env, db: string, s: Schema, v: Json)
    requires Acyclic(env) && s.Keywords? && Open(env, db, s)
    requires v.Object? && "database" !in v.fields
    ensures RefValid(env, s, WithDatabase(v, db)) == RefValid(env, s, v)
    decreases RankOf(env.rank, s), s, 0
  {
    if s.ref.Some? {
      var name := PointerTarget(s.ref.value);
      if name.Some? && name.value in env.defs {
        PointerTargetIsDefName(s.ref.value);
        OpenIgnoresDatabase(env, db, env.defs[name.value], v);
      }
    }
  }

  lemma {:induction false} OpenBranches(env: Env, db: string, s: Schema, v: Json)
    requires Acyclic(env) && s.Keywords? && Open(env, db, s)
    requires v.Object? && "database" !in v.fields
    ensures BranchesValid(env, s, WithDatabase(v, db)) == BranchesValid(env, s, v)
    decreases RankOf(env.rank, s), s, 0
  {
    if s.anyOf.Present? { OpenCount(env, db, s.anyOf.list, v); }
    if s.oneOf.Present? { OpenCount(env, db, s.oneOf.list, v); }
    if s.allOf.Present? { OpenCount(env, db, s.allOf.list, v); }
  }

  lemma {:induction false} OpenCount(env: Env, db: string, ss: seq<Schema>, v: Json)
    requires Acyclic(env) && AllOpen(env, db, ss)
    requires v.Object? && "database" !in v.fields
    ensures CountValid(env, ss, WithDatabase(v, db)) == CountValid(env, ss, v)
    decreases RanksOf(env.rank, ss), ss
  {
    if ss != [] {
      OpenIgnoresDatabase(env, db, ss[0], v);
      OpenCount(env, db, ss[1..], v);
    }
  }

  // ---- Injection keeps schemas open ---------------------------------------------------------

  lemma DatabaseFieldAccepts(env: Env, db: string)
    ensures Valid(env, DATABASE_FIELD, String(db))
  {
  }

  lemma ConjunctIsOpen(env: Env, db: string)
    requires Acyclic(env)
    ensures Open(env, db, DATABASE_CONJUNCT)
  {
    DatabaseFieldAccepts(env, db);
    assert FieldSchema(DATABASE_CONJUNCT, "database") == DATABASE_FIELD;
  }

  lemma {:induction false} InjectKeepsOpen(env: Env, db: string, s: Schema)
    requires Acyclic(env) && s.Keywords? && Open(env, db, s)
    ensures Open(env, db, Inject(s))
    decreases s
  {
    if s.properties.Some? || s.typ == Some(One(ObjectType)) {
      assert Open(env, db, s.(properties := None, additional := None)) by {
        assert FieldSchema(s.(properties := None, additional := None), "database") == Always(true);
      }
      InjectedPropertyIsOpen(env, db, s);
    } else if s.anyOf.Present? && s.anyOf.list != [] {
      InjectInlineKeepsOpen(env, db, s.anyOf.list);
      OpenBranchSwap(env, db, s, Inject(s));
    } else if s.oneOf.Present? && s.oneOf.list != [] {
      InjectInlineKeepsOpen(env, db, s.oneOf.list);
      OpenBranchSwap(env, db, s, Inject(s));
    } else if s.allOf.Present? {
      ConjunctIsOpen(env, db);
      OpenAppend(env, db, s.allOf.list, DATABASE_CONJUNCT);
      OpenBranchSwap(env, db, s, Inject(s));
    }
  }

  /** An open schema stays open when its composition lists are replaced by open ones. */
  lemma OpenBranchSwap(env: Env, db: string, s: Schema, t: Schema)
    requires Acyclic(env) && s.Keywords? && t.Keywords? && Open(env, db, s)
    requires t.(anyOf := s.anyOf, oneOf := s.oneOf, allOf := s.allOf) == s
    requires t.anyOf.Present? ==> AllOpen(env, db, t.anyOf.list)
    requires t.oneOf.Present? ==> AllOpen(env, db, t.oneOf.list)
    requires t.allOf.Present? ==> AllOpen(env, db, t.allOf.list)
    ensures Open(env, db, t)
  {
    assert FieldSchema(t, "database") == FieldSchema(s, "database");
  }

  lemma InjectedPropertyIsOpen(env: Env, db: string, s: Schema)
    requires Acyclic(env) && s.Keywords?
    requires s.properties.Some? || s.typ == Some(One(ObjectType))
    requires Open(env, db, s.(properties := None, additional := None))
    ensures Open(env, db, Inject(s))
  {
    DatabaseFieldAccepts(env, db);
    assert FieldSchema(Inject(s), "database") == DATABASE_FIELD;
  }

  lemma {:induction false} InjectInlineKeepsOpen(env: Env, db: string, ss: seq<Schema>)
    requires Acyclic(env) && AllOpen(env, db, ss)
    ensures AllOpen(env, db, InjectInline(ss))
    decreases ss
  {
    if ss != [] {
      if ss[0].Keywords? && ss[0].ref.None? {
        InjectKeepsOpen(env, db, ss[0]);
      }
      InjectInlineKeepsOpen(env, db, ss[1..]);
      assert InjectInline(ss)[1..] == InjectInline(ss[1..]);
    }
  }

  lemma {:induction false} OpenAppend(env: Env, db: string, ss: seq<Schema>, t: Schema)
    requires Acyclic(env) && AllOpen(env, db, ss) && Open(env, db, t)
    ensures AllOpen(env, db, ss + [t])
    decreases ss
  {
    if ss == [] {
      assert ss + [t] == [t];
    } else {
      OpenAppend(env, db, ss[1..], t);
      assert (ss + [t])[1..] == ss[1..] + [t];
    }
  }

  lemma {:induction false} InjectDefKeepsOpen(env: Env, db: string, n: string, s: Schema)
    requires Injectable(env, n) && WellFormed(InjectDef(env, n))
    requires Open(env, db, s)
    ensures Open(InjectDef(env, n), db, s)
    decreases RankOf(env.rank, s), s, 0
  {
    if s.Keywords? {
      InjectDefAgrees(env, n, FieldSchema(s, "database"), String(db));
      if DefName(s.ref).Some? && DefName(s.ref).value in env.defs {
        InjectDefKeepsDefOpen(env, db, n, DefName(s.ref).value);
      }
      InjectDefKeepsBranchOpen(env, db, n, s.anyOf);
      InjectDefKeepsBranchOpen(env, db, n, s.oneOf);
      InjectDefKeepsBranchOpen(env, db, n, s.allOf);
    }
  }

  lemma {:induction false} InjectDefKeepsDefOpen(env: Env, db: string, n: string, name: string)
    requires Injectable(env, n) && WellFormed(InjectDef(env, n))
    requires name in env.defs && Open(env, db, env.defs[name])
    ensures Open(InjectDef(env, n), db, InjectDef(env, n).defs[name])
    decreases RankOf(env.rank, env.defs[name]), env.defs[name], 1
  {
    InjectDefKeepsOpen(env, db, n, env.defs[name]);
    if name == n {
      InjectKeepsOpen(InjectDef(env, n), db, env.defs[n]);
    }
  }

  lemma {:induction false} InjectDefKeepsBranchOpen(env: Env, db: string, n: string, b: Branches)
    requires Injectable(env, n) && WellFormed(InjectDef(env, n))
    requires b.Present? ==> AllOpen(env, db, b.list)
    ensures b.Present? ==> AllOpen(InjectDef(env, n), db, b.list)
    decreases if b.Present? then RanksOf(env.rank, b.list) else 0, b
  {
    if b.Present? {
      InjectDefKeepsAllOpen(env, db, n, b.list);
    }
  }

  lemma {:induction false} InjectDefKeepsAllOpen(env: Env, db: string, n: string, ss: seq<Schema>)
    requires Injectable(env, n) && WellFormed(InjectDef(env, n))
    requires AllOpen(env, db, ss)
    ensures AllOpen(InjectDef(env, n), db, ss)
    decreases RanksOf(env.rank, ss), ss
  {
    if ss != [] {
      InjectDefKeepsOpen(env, db, n, ss[0]);
      InjectDefKeepsAllOpen(env, db, n, ss[1..]);
    }
  }

  // ---- The rewritten document ---------------------------------------------------------------

  /** `_resolve_ref`: the name of the definition a variant refers to, when it is a dictionary. */
  function Target(env: Env, s: Schema): (name: Option<string>)
    ensures name.Some? ==> name.value in env.defs && env.defs[name.value].Keywords?
  {
    if s.Keywords? && DefName(s.ref).Some? && DefName(s.ref).value in env.defs
       && env.defs[DefName(s.ref).value].Keywords?
    then DefName(s.ref)
    else None
  }

  /** The document after the loop over variants has injected into each target in turn. */
  function InjectTargets(env: Env, ss: seq<Schema>): Env
    decreases |ss|
  {
    if ss == [] then env
    else
      var name := Target(env, ss[0]);
      InjectTargets(if name.Some? then InjectDef(env, name.value) else env, ss[1..])
  }

  function ResultSchema(body: Schema): Schema
    requires body.Keywords?
  {
    if body.properties.Some? && "result" in body.properties.value then body.properties.value["result"] else EMPTY
  }

  function WithObjectType(s: Schema): Schema
    requires s.Keywords?
  {
    if s.typ.None? then s.(typ := Some(One(ObjectType))) else s
  }

  /** The part of the `result` schema that survives unwrapping, before injection. */
  function Kept(result: Schema): Schema
    requires result.Keywords?
  {
    if result.anyOf.Present? then OBJECT.(anyOf := result.anyOf)
    else if result.oneOf.Present? then OBJECT.(oneOf := result.oneOf)
    else if result.allOf.Present? then OBJECT.(allOf := result.allOf)
    else if result.ref.Some? then OBJECT.(ref := result.ref)
    else WithObjectType(result)
  }

  /** The schemas whose targets are injected into when `result` is unwrapped. */
  function Variants(result: Schema): seq<Schema>
    requires result.Keywords?
  {
    if result.anyOf.Present? then result.anyOf.list
    else if result.oneOf.Present? then result.oneOf.list
    else if result.allOf.Present? then result.allOf.list
    else if result.ref.Some? then [OBJECT.(ref := result.ref)]
    else []
  }

  predicate IsInline(result: Schema)
    requires result.Keywords?
  {
    result.anyOf.Absent? && result.oneOf.Absent? && result.allOf.Absent? && result.ref.None?
  }

  /** What `_fixup_output_schema` returns. */
  function Fixup(doc: Document): (r: Document)
    requires doc.body.Keywords? && Acyclic(doc.env)
    ensures r.body.Keywords?
  {
    if !doc.wrapped then doc.(body := Inject(doc.body))
    else
      var result := ResultSchema(doc.body);
      if !YieldsObject(doc.env, result) then Document(false, doc.env, Inject(doc.body))
      else if IsInline(result) then Document(false, doc.env, Inject(Kept(result)))
      else Document(false, InjectTargets(doc.env, Variants(result)), Kept(result))
  }

  /** `_fixup_output_schema`, as the source runs it. */
  method FixupOutputSchema(doc: Option<Document>) returns (r: Option<Document>)
    requires doc.Some? ==> doc.value.body.Keywords? && Acyclic(doc.value.env)
    ensures r == if doc.None? then None else Some(Fixup(doc.value))
  {
    if doc.None? {
      return None;
    }
    var schema := doc.value;
    if schema.wrapped {
      var result := ResultSchema(schema.body);
      if !YieldsObject(schema.env, result) {
        return Some(Document(false, schema.env, Inject(schema.body)));
      }
      var unwrapped := OBJECT;
      var variants := [];
      if result.anyOf.Present? {
        unwrapped, variants := unwrapped.(anyOf := result.anyOf), result.anyOf.list;
      } else if result.oneOf.Present? {
        unwrapped, variants := unwrapped.(oneOf := result.oneOf), result.oneOf.list;
      } else if result.allOf.Present? {
        unwrapped, variants := unwrapped.(allOf := result.allOf), result.allOf.list;
      } else if result.ref.Some? {
        unwrapped := unwrapped.(ref := result.ref);
        variants := [unwrapped];
      } else {
        unwrapped := WithObjectType(result);
        return Some(Document(false, schema.env, Inject(unwrapped)));
      }
      var env := schema.env;
      for i := 0 to |variants|
        invariant InjectTargets(env, variants[i..]) == InjectTargets(schema.env, variants)
      {
        var name := Target(env, variants[i]);
        assert variants[i..][0] == variants[i] && variants[i..][1..] == variants[i + 1..];
        if name.Some? {
          env := InjectDef(env, name.value);
        }
      }
      return Some(Document(false, env, unwrapped));
    }
    return Some(schema.(body := Inject(schema.body)));
  }
}
